/**
 Signal delivery and return: the frame that setup_sigframe pushes on the guest
 stack, what rt_sigreturn reads back from it, and the system-call exit around
 it. Registers are in the order of the signal context; the frame is laid out
 byte by byte.
 */
module SignalFrames {
  import opened Bits
  import opened Common
  import opened GuestMemory

  const RDI: nat := 8
  const RSI: nat := 9
  const RDX: nat := 12
  const RAX: nat := 13
  const RSP: nat := 15
  const RIP: nat := 16

  const FRAME: nat := 440
  const SF_SC: nat := 8
  const SF_SI: nat := 312

  const SA_NODEFER: bv64 := 0x4000_0000
  const SA_RESTORER: bv64 := 0x0400_0000
  const SA_ONSTACK: bv64 := 0x0800_0000

  const SS_ONSTACK: bv32 := 1
  const SS_DISABLE: bv32 := 2
  /** SS_DISABLE of the host, which sigaltstack compares with. */
  const HOST_SS_DISABLE: bv32 := 4
  const SS_AUTODISARM: bv32 := 0x8000_0000
  const MINSIGSTKSZ: int := 2048

  const EPERM: int := 1
  const ENOMEM: int := 12
  const EFAULT: int := 14
  const EINVAL: int := 22

  /** 18 registers of 64 bits in the order of the signal context, and the selectors cs, gs, fs, ss. */
  datatype Cpu = Cpu(gp: seq<nat>, sel: seq<nat>)

  datatype AltStack = AltStack(sp: nat, flags: bv32, size: nat)

  datatype Action = Action(handler: nat, flags: bv64, restorer: nat, mask: bv64)

  datatype Machine = Machine(cpu: Cpu, mask: bv64, sas: AltStack, mem: Memory)

  predicate GoodCpu(c: Cpu) {
    && |c.gp| == 18 && (forall i :: 0 <= i < 18 ==> c.gp[i] < TWO64)
    && |c.sel| == 4 && (forall i :: 0 <= i < 4 ==> c.sel[i] < 0x1_0000)
  }

  function Wrap(x: int): (w: nat)
    ensures w < TWO64
  {
    x % TWO64
  }

  // ---- delivery --------------------------------------------------------

  function SasFlags(sas: AltStack, rsp: int): (f: bv32) {
    if sas.flags & SS_DISABLE != 0 || sas.size == 0 then SS_DISABLE
    else if sas.sp < rsp && rsp - sas.sp < sas.size then SS_ONSTACK | sas.flags
    else sas.flags
  }

  /** Where the frame's stack starts: at the end of the alternate stack if it is to be entered. */
  function FrameTop(sas: AltStack, act: Action, rsp: int): (top: int) {
    if act.flags & SA_ONSTACK != 0 && SasFlags(sas, rsp) & !SS_AUTODISARM == 0 then sas.sp + sas.size else rsp
  }

  function NewMask(act: Action, sig: nat): (m: bv64)
    requires 1 <= sig <= 64
  {
    if act.flags & SA_NODEFER != 0 then act.mask else Set(act.mask, Count(sig - 1))
  }

  /** What the host's stack happens to hold in the fields that are never set. */
  predicate Junk(junk: seq<nat>) {
    |junk| == 12
  }

  function Head(act: Action, sas: AltStack): (b: seq<byte>)
    ensures |b| == 48
  {
    Pack(8, [act.restorer, 7, 0, sas.sp, sas.flags as nat, sas.size])
  }

  function Context(c: Cpu, mask: bv64, junk: seq<nat>): (b: seq<byte>)
    requires GoodCpu(c) && Junk(junk)
    ensures |b| == 256
  {
    Pack(8, c.gp) + Pack(2, c.sel) + Pack(8, junk[..2]) + Pack(8, [mask as nat]) + Pack(8, junk[2..])
  }

  function Tail(mask: bv64, sig: nat): (b: seq<byte>)
    ensures |b| == 136
  {
    Pack(8, [mask as nat, sig] + seq(15, i => 0))
  }

  /** The whole frame: return address, ucontext, siginfo. */
  function FrameBytes(m: Machine, act: Action, sig: nat, junk: seq<nat>): (b: seq<byte>)
    requires GoodCpu(m.cpu) && Junk(junk)
    ensures |b| == FRAME
  {
    Head(act, m.sas) + Context(m.cpu, m.mask, junk) + Tail(m.mask, sig)
  }

  function HandlerCpu(c: Cpu, f: int, act: Action, sig: nat): (c': Cpu)
    requires |c.gp| == 18
  {
    c.(gp := c.gp[RSP := Wrap(f)][RDI := sig][RSI := Wrap(f + SF_SI)][RDX := Wrap(f + SF_SC)]
                 [RAX := 0][RIP := Wrap(act.handler)])
  }

  /** setup_sigframe; None where the process is killed instead. */
  function Deliver(m: Machine, act: Action, sig: nat, junk: seq<nat>): (r: Option<Machine>)
    requires GoodCpu(m.cpu) && Junk(junk) && 1 <= sig <= 64
  {
    var f := FrameTop(m.sas, act, m.cpu.gp[RSP]) - FRAME;
    if act.flags & SA_RESTORER == 0 || !Mapped(m.mem, f, FRAME) then None
    else Some(Machine(HandlerCpu(m.cpu, f, act, sig), NewMask(act, sig),
                      if m.sas.flags & SS_AUTODISARM != 0 then AltStack(0, SS_DISABLE, 0) else m.sas,
                      Save(m.mem, f, FrameBytes(m, act, sig, junk))))
  }

  // ---- return ----------------------------------------------------------

  /** The registers a frame holds. */
  function FrameCpu(b: seq<byte>): (c: Cpu)
    requires |b| == FRAME
    ensures GoodCpu(c)
  {
    WordSize();
    Cpu(Unpack(8, 18, b[48..192]), Unpack(2, 4, b[192..200]))
  }

  /** The signal mask a frame holds. */
  function FrameMask(b: seq<byte>): (m: bv64)
    requires |b| == FRAME
  {
    WordSize();
    var w := LeValue(b[216..224]);
    w as bv64
  }

  /** The frame, seen from its handler's return: the return address has been popped. */
  function FrameAt(c: Cpu): (f: int)
    requires |c.gp| == 18
  {
    var rsp: int := c.gp[RSP];
    rsp - 8
  }

  function Back(rip: int): (w: nat)
    ensures w < TWO64
    ensures 0 <= rip < TWO64 ==> Wrap(w + 2) == rip
  {
    Wrap(rip - 2)
  }

  /** rt_sigreturn: restores the context with RIP moved back over the system-call instruction, and returns RAX. */
  function SigReturn(m: Machine): (r: Option<(Machine, nat)>)
    requires GoodCpu(m.cpu)
  {
    var f := FrameAt(m.cpu);
    if !Mapped(m.mem, f, FRAME) then None
    else
      var b := Load(m.mem, f, FRAME);
      var c := FrameCpu(b);
      Some((m.(cpu := c.(gp := c.gp[RIP := Back(c.gp[RIP])]), mask := FrameMask(b)), c.gp[RAX]))
  }

  /** What follows every system call: the result goes to RAX, and RIP past the instruction. */
  function SyscallExit(m: Machine, ret: nat): (m': Machine)
    requires GoodCpu(m.cpu) && ret < TWO64
    ensures GoodCpu(m'.cpu)
  {
    var gp := m.cpu.gp[RAX := ret];
    m.(cpu := m.cpu.(gp := gp[RIP := Wrap(gp[RIP] + 2)]))
  }

  /** rt_sigreturn as the guest sees it. */
  function Resume(m: Machine): (r: Option<Machine>)
    requires GoodCpu(m.cpu)
  {
    match SigReturn(m)
    case None => None
    case Some((m', ret)) => Some(SyscallExit(m', ret))
  }

  // ---- what a frame holds ----------------------------------------------

  lemma ContextSlices(c: Cpu, mask: bv64, junk: seq<nat>)
    requires GoodCpu(c) && Junk(junk)
    ensures var b := Context(c, mask, junk);
            b[..144] == Pack(8, c.gp) && b[144..152] == Pack(2, c.sel) && b[168..176] == Pack(8, [mask as nat])
  {
    hide Pack;
  }

  lemma FrameSlices(m: Machine, act: Action, sig: nat, junk: seq<nat>)
    requires GoodCpu(m.cpu) && Junk(junk)
    ensures var b := FrameBytes(m, act, sig, junk);
            && b[48..192] == Pack(8, m.cpu.gp) && b[192..200] == Pack(2, m.cpu.sel)
            && b[216..224] == Pack(8, [m.mask as nat])
  {
    hide Pack, Context, Head, Tail;
    var b, x := FrameBytes(m, act, sig, junk), Context(m.cpu, m.mask, junk);
    ContextSlices(m.cpu, m.mask, junk);
    assert b[48..304] == x;
    assert b[48..192] == x[..144] && b[192..200] == x[144..152] && b[216..224] == x[168..176];
  }

  lemma OneWord(w: nat)
    ensures Pack(8, [w]) == WordBytes(w)
  {
  }

  lemma MaskWord(mask: bv64)
    ensures 0 <= mask as int < TWO64
  {
  }

  lemma PackFirst(ws: seq<nat>)
    requires |ws| >= 2
    ensures |Pack(8, ws)| >= 16 && Pack(8, ws)[..8] == WordBytes(ws[0]) && Pack(8, ws)[8..16] == WordBytes(ws[1])
  {
    hide LeBytes;
    var rest := Pack(8, ws[1..]);
    assert Pack(8, ws) == WordBytes(ws[0]) + rest;
    assert rest == WordBytes(ws[1]) + Pack(8, ws[1..][1..]);
    hide Pack;
    assert Pack(8, ws)[8..16] == rest[..8];
  }

  /** The first word of a frame is the return address, and its siginfo starts with the signal. */
  lemma FrameEnds(m: Machine, act: Action, sig: nat, junk: seq<nat>)
    requires GoodCpu(m.cpu) && Junk(junk) && act.restorer < TWO64 && sig < TWO64
    ensures var b := FrameBytes(m, act, sig, junk);
            LeValue(b[..8]) == act.restorer && LeValue(b[SF_SI..SF_SI + 8]) == sig
  {
    hide Pack, Context, LeValue, WordBytes;
    var b := FrameBytes(m, act, sig, junk);
    var zeros: seq<nat> := seq(15, i => 0);
    PackFirst([act.restorer, 7, 0, m.sas.sp, m.sas.flags as nat, m.sas.size]);
    PackFirst([m.mask as nat, sig] + zeros);
    assert b[..8] == Head(act, m.sas)[..8];
    assert b[SF_SI..SF_SI + 8] == Tail(m.mask, sig)[8..16];
    WordRoundTrip(act.restorer);
    WordRoundTrip(sig);
  }

  /** What a handler finds at the start: the registers, its return address, the signal, and what was interrupted. */
  ghost predicate Finds(m': Machine, f: int, m: Machine, act: Action, sig: nat) {
    && |m'.cpu.gp| == 18
    && m'.cpu.gp[RIP] == act.handler && m'.cpu.gp[RSP] == f && m'.cpu.gp[RDI] == sig
    && m'.cpu.gp[RSI] == f + SF_SI && m'.cpu.gp[RDX] == f + SF_SC && m'.cpu.gp[RAX] == 0
    && (|m.cpu.gp| == 18 ==>
          forall i :: 0 <= i < 18 && i !in {RIP, RSP, RDI, RSI, RDX, RAX} ==> m'.cpu.gp[i] == m.cpu.gp[i])
    && m'.cpu.sel == m.cpu.sel
    && Blocks(m'.mask, act, sig)
    && m'.sas == (if m.sas.flags & SS_AUTODISARM != 0 then AltStack(0, SS_DISABLE, 0) else m.sas)
    && Mapped(m'.mem, f, FRAME) && FrameReads(Load(m'.mem, f, FRAME), m, act, sig)
    && m'.mem.Keys == m.mem.Keys && forall p :: p in m.mem && !(f <= p < f + FRAME) ==> m'.mem[p] == m.mem[p]
  }

  /** The signals blocked in a handler: those of the action, and the signal itself unless it has SA_NODEFER. */
  ghost predicate Blocks(mask: bv64, act: Action, sig: nat) {
    forall j: bv6 :: HasBit(mask, j) <==> HasBit(act.mask, j) || (j as nat + 1 == sig && act.flags & SA_NODEFER == 0)
  }

  lemma NewMaskBlocks(act: Action, sig: nat)
    requires 1 <= sig <= 64
    ensures Blocks(NewMask(act, sig), act, sig)
  {
    hide HasBit, Set, Count;
    forall j: bv6
      ensures HasBit(NewMask(act, sig), j) <==>
              HasBit(act.mask, j) || (j as nat + 1 == sig && act.flags & SA_NODEFER == 0)
    {
      SetByNumber(act.mask, sig - 1, j);
    }
  }

  ghost predicate FrameReads(b: seq<byte>, m: Machine, act: Action, sig: nat) {
    && |b| == FRAME && LeValue(b[..8]) == act.restorer && LeValue(b[SF_SI..SF_SI + 8]) == sig
    && FrameCpu(b) == m.cpu && FrameMask(b) == m.mask
    && LeValue(b[8..16]) == 7 && LeValue(b[16..24]) == 0
    && (m.sas.sp < TWO64 && m.sas.size < TWO64 ==>
          LeValue(b[24..32]) == m.sas.sp && LeValue(b[32..40]) == m.sas.flags as nat
              && LeValue(b[40..48]) == m.sas.size)
    && LeValue(b[216..224]) == m.mask as nat && LeValue(b[304..312]) == m.mask as nat
  }

  /** The words of the frame before its context. */
  lemma HeadWords(m: Machine, act: Action, sig: nat, junk: seq<nat>)
    requires GoodCpu(m.cpu) && Junk(junk)
    ensures var b := FrameBytes(m, act, sig, junk);
            && LeValue(b[8..16]) == 7 && LeValue(b[16..24]) == 0
            && (m.sas.sp < TWO64 && m.sas.size < TWO64 ==>
                  && LeValue(b[24..32]) == m.sas.sp && LeValue(b[32..40]) == m.sas.flags as nat
                  && LeValue(b[40..48]) == m.sas.size)
  {
    hide FrameBytes, Pack, LeValue;
    var b := FrameBytes(m, act, sig, junk);
    FrameParts(m, act, sig, junk);
    FlagsWord(m.sas.flags);
    var head := [act.restorer, 7, 0, m.sas.sp, m.sas.flags as nat, m.sas.size];
    HeadWord(b, head, 1);
    HeadWord(b, head, 2);
    if m.sas.sp < TWO64 && m.sas.size < TWO64 {
      HeadWord(b, head, 3);
      HeadWord(b, head, 4);
      HeadWord(b, head, 5);
    }
  }

  /** The two copies of the mask. */
  lemma MaskWords(m: Machine, act: Action, sig: nat, junk: seq<nat>)
    requires GoodCpu(m.cpu) && Junk(junk)
    ensures var b := FrameBytes(m, act, sig, junk);
            LeValue(b[216..224]) == m.mask as nat && LeValue(b[304..312]) == m.mask as nat
  {
    hide FrameBytes, Pack, LeValue, WordBytes;
    var b := FrameBytes(m, act, sig, junk);
    FrameParts(m, act, sig, junk);
    MaskWord(m.mask);
    FrameSlices(m, act, sig, junk);
    OneWord(m.mask as nat);
    WordRoundTrip(m.mask as nat);
    TailWord(b, m.mask, sig);
  }

  /** A frame reads as what it was made of. */
  lemma FrameIsRead(m: Machine, act: Action, sig: nat, junk: seq<nat>)
    requires GoodCpu(m.cpu) && Junk(junk) && sig < TWO64 && act.restorer < TWO64
    ensures FrameReads(FrameBytes(m, act, sig, junk), m, act, sig)
  {
    hide FrameBytes, FrameCpu, FrameMask, LeValue;
    FrameEnds(m, act, sig, junk);
    FrameHolds(m, act, sig, junk);
    HeadWords(m, act, sig, junk);
    MaskWords(m, act, sig, junk);
  }

  lemma FrameParts(m: Machine, act: Action, sig: nat, junk: seq<nat>)
    requires GoodCpu(m.cpu) && Junk(junk)
    ensures var b := FrameBytes(m, act, sig, junk);
            && b[..48] == Pack(8, [act.restorer, 7, 0, m.sas.sp, m.sas.flags as nat, m.sas.size])
            && b[304..440] == Pack(8, [m.mask as nat, sig] + seq(15, i => 0))
  {
    hide Pack, Context;
  }

  lemma FlagsWord(f: bv32)
    ensures 0 <= f as nat < 0x1_0000_0000
  {
  }

  lemma HeadWord(b: seq<byte>, head: seq<nat>, i: nat)
    requires |b| == FRAME && |head| == 6 && i < 6 && b[..48] == Pack(8, head) && head[i] < TWO64
    ensures LeValue(b[8 * i..8 * i + 8]) == head[i]
  {
    hide Pack, LeValue;
    PackedWord(head, i);
    SliceAgain(b, 0, 48, 8 * i, 8);
  }

  lemma TailWord(b: seq<byte>, mask: bv64, sig: nat)
    requires |b| == FRAME && b[304..440] == Pack(8, [mask as nat, sig] + seq(15, i => 0))
    ensures LeValue(b[304..312]) == mask as nat
  {
    hide Pack, LeValue;
    var ws := [mask as nat, sig] + seq(15, i => 0);
    MaskWord(mask);
    PackedWord(ws, 0);
    SliceAgain(b, 304, 440, 0, 8);
  }

  /** Where the saved registers and selectors are in a frame. */
  lemma FrameOffsets(b: seq<byte>)
    requires |b| == FRAME
    ensures forall i :: 0 <= i < 18 ==> FrameCpu(b).gp[i] == LeValue(b[48 + 8 * i..56 + 8 * i])
    ensures forall i :: 0 <= i < 4 ==> FrameCpu(b).sel[i] == LeValue(b[192 + 2 * i..194 + 2 * i])
  {
    hide FrameCpu, LeValue;
    forall i | 0 <= i < 18
      ensures FrameCpu(b).gp[i] == LeValue(b[48 + 8 * i..56 + 8 * i])
    {
      RegisterAt(b, i);
    }
    forall i | 0 <= i < 4
      ensures FrameCpu(b).sel[i] == LeValue(b[192 + 2 * i..194 + 2 * i])
    {
      SelectorAt(b, i);
    }
  }

  /** Where the mask is. */
  lemma MaskAt(b: seq<byte>, mask: bv64)
    requires |b| == FRAME && LeValue(b[216..224]) == mask as nat
    ensures FrameMask(b) == mask
  {
    hide LeValue;
    WordSize();
    MaskAgain(mask);
  }

  lemma MaskAgain(mask: bv64)
    ensures 0 <= mask as nat < TWO64 && (mask as nat) as bv64 == mask
  {
  }

  lemma RegisterAt(b: seq<byte>, i: nat)
    requires |b| == FRAME && i < 18
    ensures FrameCpu(b).gp[i] == LeValue(b[48 + 8 * i..56 + 8 * i])
  {
    hide LeValue, Unpack;
    WordSize();
    UnpackAt(8, 18, b[48..192], i);
    SliceAgain(b, 48, 192, 8 * i, 8);
  }

  lemma SelectorAt(b: seq<byte>, i: nat)
    requires |b| == FRAME && i < 4
    ensures FrameCpu(b).sel[i] == LeValue(b[192 + 2 * i..194 + 2 * i])
  {
    hide LeValue, Unpack;
    WordSize();
    UnpackAt(2, 4, b[192..200], i);
    SliceAgain(b, 192, 200, 2 * i, 2);
  }

  lemma SliceAgain(b: seq<byte>, lo: nat, hi: nat, o: nat, n: nat)
    requires lo <= hi <= |b| && lo + o + n <= hi
    ensures b[lo..hi][o..o + n] == b[lo + o..lo + o + n]
  {
    var x, y := b[lo..hi][o..o + n], b[lo + o..lo + o + n];
    forall k | 0 <= k < n
      ensures x[k] == y[k]
    {
      assert x[k] == b[lo..hi][o + k];
    }
  }

  /**
   What a handler finds: the return address on top of its stack, the signal in
   RDI and at the siginfo that RSI points to, and the interrupted context in the
   frame, of which RDX points to the second word.
   */
  lemma HandlerSees(m: Machine, act: Action, sig: nat, junk: seq<nat>)
    requires GoodCpu(m.cpu) && Junk(junk) && 1 <= sig <= 64 && act.restorer < TWO64 && act.handler < TWO64
    requires Deliver(m, act, sig, junk).Some?
    requires var f := FrameTop(m.sas, act, m.cpu.gp[RSP]) - FRAME; 0 <= f && f + FRAME < TWO64
    ensures Finds(Deliver(m, act, sig, junk).value, FrameTop(m.sas, act, m.cpu.gp[RSP]) - FRAME, m, act, sig)
  {
    hide FrameBytes, FrameReads, NewMask, FrameTop, Blocks;
    var f := FrameTop(m.sas, act, m.cpu.gp[RSP]) - FRAME;
    LoadSaved(m.mem, f, FrameBytes(m, act, sig, junk));
    FrameIsRead(m, act, sig, junk);
    NewMaskBlocks(act, sig);
  }

  /** A frame holds the registers and the mask it was made from. */
  lemma FrameHolds(m: Machine, act: Action, sig: nat, junk: seq<nat>)
    requires GoodCpu(m.cpu) && Junk(junk)
    ensures FrameCpu(FrameBytes(m, act, sig, junk)) == m.cpu && FrameMask(FrameBytes(m, act, sig, junk)) == m.mask
  {
    hide FrameBytes, Pack, Unpack;
    FrameSlices(m, act, sig, junk);
    WordSize();
    PackRoundTrip(8, m.cpu.gp);
    PackRoundTrip(2, m.cpu.sel);
    MaskWord(m.mask);
    WordRoundTrip(m.mask as nat);
    assert Pack(8, [m.mask as nat]) == WordBytes(m.mask as nat) by {
      OneWord(m.mask as nat);
    }
  }

  /** Returning through a frame gives the CPU and mask it holds, RIP and RAX included. */
  lemma ResumeGives(m: Machine)
    requires GoodCpu(m.cpu) && Mapped(m.mem, FrameAt(m.cpu), FRAME)
    ensures var b := Load(m.mem, FrameAt(m.cpu), FRAME);
            Resume(m) == Some(m.(cpu := FrameCpu(b), mask := FrameMask(b)))
  {
    hide FrameCpu, FrameMask;
    var c := FrameCpu(Load(m.mem, FrameAt(m.cpu), FRAME));
    assert c.gp[RIP := Back(c.gp[RIP])][RAX := c.gp[RAX]][RIP := c.gp[RIP]] == c.gp;
  }

  // ---- the thread that does it -----------------------------------------

  class Thread {
    var gp: seq<nat>
    var sel: seq<nat>
    var mask: bv64
    var sas: AltStack
    var mem: Memory

    function View(): (m: Machine)
      reads this
    {
      Machine(Cpu(gp, sel), mask, sas, mem)
    }

    /** Register by register, as setup_sigframe goes; after an error the process does not go on. */
    method SetupSigframe(act: Action, sig: nat, junk: seq<nat>) returns (ret: int)
      requires GoodCpu(View().cpu) && Junk(junk) && 1 <= sig <= 64
      modifies this
      ensures ret == 0 || ret == -EFAULT
      ensures ret == 0 <==> old(Deliver(View(), act, sig, junk)).Some?
      ensures ret == 0 ==> View() == old(Deliver(View(), act, sig, junk)).value
      ensures var f := old(FrameTop(sas, act, gp[RSP])) - FRAME;
              && (ret == 0 <==> act.flags & SA_RESTORER != 0 && Mapped(old(mem), f, FRAME))
              && (ret != 0 ==> mem == old(mem))
              && (ret == 0 && act.restorer < TWO64 && act.handler < TWO64 && 0 <= f && f + FRAME < TWO64 ==>
                    Finds(View(), f, old(View()), act, sig))
    {
      hide FrameBytes, NewMask, Save, Load, FrameTop, Mapped, Finds;
      var rsp := FrameTop(sas, act, gp[RSP]);
      if act.flags & SA_RESTORER == 0 {
        return -EFAULT;
      }
      var frame := FrameBytes(View(), act, sig, junk);
      if sas.flags & SS_AUTODISARM != 0 {
        sas := AltStack(0, SS_DISABLE, 0);
      }
      mask := NewMask(act, sig);
      rsp := rsp - FRAME;
      gp := gp[RSP := Wrap(rsp)];
      if !Mapped(mem, rsp, FRAME) {
        return -EFAULT;
      }
      mem := Save(mem, rsp, frame);
      gp := gp[RDI := sig];
      gp := gp[RSI := Wrap(rsp + SF_SI)];
      gp := gp[RDX := Wrap(rsp + SF_SC)];
      gp := gp[RAX := 0];
      gp := gp[RIP := Wrap(act.handler)];
      ret := 0;
      ghost var f := old(FrameTop(sas, act, gp[RSP])) - FRAME;
      if act.restorer < TWO64 && act.handler < TWO64 && 0 <= f && f + FRAME < TWO64 {
        HandlerSees(old(View()), act, sig, junk);
      }
    }

    method RtSigreturn() returns (ret: Option<nat>)
      requires GoodCpu(View().cpu)
      modifies this
      ensures ret == None <==> old(Resume(View())) == None
      ensures ret.Some? ==>
              old(SigReturn(View())) == Some((View(), ret.value)) && ret.value < TWO64 && GoodCpu(View().cpu)
    {
      hide FrameCpu, FrameMask;
      var rsp: int := gp[RSP];
      if !Mapped(mem, rsp - 8, FRAME) {
        return None;
      }
      var frame := Load(mem, rsp - 8, FRAME);
      var c := FrameCpu(frame);
      gp, sel := c.gp, c.sel;
      mask := FrameMask(frame);
      var rip := gp[RIP];
      gp := gp[RIP := Back(rip)];
      ret := Some(gp[RAX]);
    }

    /** The system-call branch of the main loop around rt_sigreturn. */
    method Syscall() returns (ok: bool)
      requires GoodCpu(View().cpu)
      modifies this
      ensures ok <==> old(Resume(View())).Some?
      ensures ok ==> old(Resume(View())) == Some(View())
    {
      hide FrameCpu, FrameMask, SigReturn;
      var ret := RtSigreturn();
      if ret == None {
        return false;
      }
      gp := gp[RAX := ret.value];
      gp := gp[RIP := Wrap(gp[RIP] + 2)];
      ok := true;
    }
  }

  // ---- nested deliveries -----------------------------------------------

  /** A delivery not yet returned from: where its frame is, and what it interrupted. */
  datatype Live = Live(addr: int, cpu: Cpu, mask: bv64)

  datatype Sys = Sys(m: Machine, live: seq<Live>)

  datatype Step =
    | Guest(cpu: Cpu, mask: bv64, sas: AltStack, mem: Memory)
    | Handle(act: Action, sig: nat, junk: seq<nat>)
    | Return(cpu: Cpu)

  ghost predicate Intact(mem: Memory, l: Live) {
    && Mapped(mem, l.addr, FRAME)
    && FrameCpu(Load(mem, l.addr, FRAME)) == l.cpu && FrameMask(Load(mem, l.addr, FRAME)) == l.mask
  }

  predicate Apart(a: int, b: int) {
    a + FRAME <= b || b + FRAME <= a
  }

  function NewFrame(s: Sys, act: Action): (f: int)
    requires GoodCpu(s.m.cpu)
  {
    FrameTop(s.m.sas, act, s.m.cpu.gp[RSP]) - FRAME
  }

  /**
   Guest code may do anything but change a live frame; a signal may arrive at
   any time if its frame does not fall on a live one; and a handler returns to
   the top frame.
   */
  ghost predicate Allowed(s: Sys, step: Step)
    requires GoodCpu(s.m.cpu)
  {
    match step
    case Guest(cpu, mask, sas, mem) =>
      GoodCpu(cpu) && forall i :: 0 <= i < |s.live| ==> SameOn(s.m.mem, mem, s.live[i].addr, FRAME)
    case Handle(act, sig, junk) =>
      && 1 <= sig <= 64 && Junk(junk) && Deliver(s.m, act, sig, junk).Some?
      && forall i :: 0 <= i < |s.live| ==> Apart(NewFrame(s, act), s.live[i].addr)
    case Return(cpu) => GoodCpu(cpu) && s.live != [] && FrameAt(cpu) == s.live[|s.live| - 1].addr
  }

  /** One step; a process that is killed stays as it is. */
  function Next(s: Sys, step: Step): (s': Sys)
    requires GoodCpu(s.m.cpu)
  {
    match step
    case Guest(cpu, mask, sas, mem) => s.(m := Machine(cpu, mask, sas, mem))
    case Handle(act, sig, junk) =>
      if 1 <= sig <= 64 && Junk(junk) && Deliver(s.m, act, sig, junk).Some? then
        Sys(Deliver(s.m, act, sig, junk).value, s.live + [Live(NewFrame(s, act), s.m.cpu, s.m.mask)])
      else s
    case Return(cpu) =>
      if GoodCpu(cpu) && s.live != [] && Resume(s.m.(cpu := cpu)).Some? then
        Sys(Resume(s.m.(cpu := cpu)).value, s.live[..|s.live| - 1])
      else s
  }

  ghost predicate Inv(s: Sys) {
    GoodCpu(s.m.cpu) && forall i :: 0 <= i < |s.live| ==> Intact(s.m.mem, s.live[i])
  }

  lemma IntactSame(mem: Memory, mem': Memory, l: Live)
    requires Intact(mem, l) && SameOn(mem, mem', l.addr, FRAME)
    ensures Intact(mem', l)
  {
    hide FrameCpu, FrameMask;
    LoadSame(mem, mem', l.addr, FRAME);
  }

  lemma HandleKeeps(s: Sys, act: Action, sig: nat, junk: seq<nat>)
    requires Inv(s) && Allowed(s, Handle(act, sig, junk))
    ensures Inv(Next(s, Handle(act, sig, junk)))
  {
    hide FrameCpu, FrameMask, FrameBytes, NewMask, Save, Mapped;
    var s', f := Next(s, Handle(act, sig, junk)), NewFrame(s, act);
    var b := FrameBytes(s.m, act, sig, junk);
    assert s'.m.mem == Save(s.m.mem, f, b);
    LoadSaved(s.m.mem, f, b);
    FrameHolds(s.m, act, sig, junk);
    forall i | 0 <= i < |s'.live|
      ensures Intact(s'.m.mem, s'.live[i])
    {
      if i < |s.live| {
        SaveElsewhere(s.m.mem, f, b, s.live[i].addr, FRAME);
        IntactSame(s.m.mem, s'.m.mem, s.live[i]);
      }
    }
  }

  /** Each return restores exactly what its delivery interrupted. */
  lemma ReturnRestores(s: Sys, cpu: Cpu)
    requires Inv(s) && Allowed(s, Return(cpu))
    ensures var top := s.live[|s.live| - 1];
            Next(s, Return(cpu)) == Sys(s.m.(cpu := top.cpu, mask := top.mask), s.live[..|s.live| - 1])
    ensures Inv(Next(s, Return(cpu)))
  {
    hide FrameCpu, FrameMask, Resume;
    assert Intact(s.m.mem, s.live[|s.live| - 1]);
    ResumeGives(s.m.(cpu := cpu));
  }

  lemma StepKeeps(s: Sys, step: Step)
    requires Inv(s) && Allowed(s, step)
    ensures Inv(Next(s, step))
  {
    hide Intact;
    match step
    case Guest(cpu, mask, sas, mem) =>
      forall i | 0 <= i < |s.live|
        ensures Intact(mem, s.live[i])
      {
        IntactSame(s.m.mem, mem, s.live[i]);
      }
    case Handle(act, sig, junk) =>
      HandleKeeps(s, act, sig, junk);
    case Return(cpu) =>
      ReturnRestores(s, cpu);
  }

  /** A run in which there are always more than n live frames. */
  ghost predicate Runs(s: Sys, steps: seq<Step>, n: int)
    requires n >= -1
    decreases |steps|
  {
    && |s.live| > n && GoodCpu(s.m.cpu)
    && (steps == [] || (Allowed(s, steps[0]) && Runs(Next(s, steps[0]), steps[1..], n)))
  }

  ghost function After(s: Sys, steps: seq<Step>, n: int): (s': Sys)
    requires n >= -1 && Runs(s, steps, n)
    decreases |steps|
  {
    if steps == [] then s else After(Next(s, steps[0]), steps[1..], n)
  }

  lemma {:induction false} RunKeeps(s: Sys, steps: seq<Step>, n: int)
    requires n >= -1 && Inv(s) && Runs(s, steps, n)
    ensures Inv(After(s, steps, n)) && |After(s, steps, n).live| > n
    ensures After(s, steps, n).live[..n + 1] == s.live[..n + 1]
    decreases |steps|
  {
    if steps != [] {
      StepKeeps(s, steps[0]);
      RunKeeps(Next(s, steps[0]), steps[1..], n);
      LiveKept(s, steps[0], n);
    }
  }

  lemma LiveKept(s: Sys, step: Step, n: int)
    requires n >= -1 && GoodCpu(s.m.cpu) && Allowed(s, step) && |s.live| > n && |Next(s, step).live| > n
    ensures Next(s, step).live[..n + 1] == s.live[..n + 1]
  {
  }

  /**
   A delivery, then any run that never returns from it, then its return: all
   registers and the mask are as they were, however many signals came between.
   */
  lemma Bracketed(s: Sys, act: Action, sig: nat, junk: seq<nat>, steps: seq<Step>, cpu: Cpu)
    requires Inv(s) && Allowed(s, Handle(act, sig, junk))
    requires Runs(Next(s, Handle(act, sig, junk)), steps, |s.live|)
    requires var s2 := After(Next(s, Handle(act, sig, junk)), steps, |s.live|);
             GoodCpu(s2.m.cpu) && |s2.live| == |s.live| + 1 && Allowed(s2, Return(cpu))
    ensures var s2 := After(Next(s, Handle(act, sig, junk)), steps, |s.live|);
            var s3 := Next(s2, Return(cpu));
            s3.m.cpu == s.m.cpu && s3.m.mask == s.m.mask && s3.live == s.live
  {
    hide Deliver, Resume, Intact;
    var s1 := Next(s, Handle(act, sig, junk));
    StepKeeps(s, Handle(act, sig, junk));
    RunKeeps(s1, steps, |s.live|);
    var s2 := After(s1, steps, |s.live|);
    ReturnRestores(s2, cpu);
    assert s2.live[..|s.live| + 1] == s2.live && s1.live[..|s.live| + 1] == s1.live;
  }

  // ---- frames on an alternate stack ------------------------------------

  /** An alternate stack with plain flags. */
  predicate Plain(sas: AltStack) {
    sas.flags == 0 && sas.size > 0
  }

  predicate OnAlt(sas: AltStack, rsp: int) {
    sas.sp < rsp < sas.sp + sas.size
  }

  predicate InAlt(sas: AltStack, a: int) {
    sas.sp <= a && a + FRAME <= sas.sp + sas.size
  }

  predicate OutAlt(sas: AltStack, a: int) {
    a + FRAME <= sas.sp || sas.sp + sas.size <= a
  }

  /**
   The stack pointer is where code that respects its live frames keeps it: on
   the alternate stack as long as a frame lives there, and below the frames of
   the stack it is on. Every frame is on one side of the alternate stack's edge.
   */
  ghost predicate Legal(sas: AltStack, live: seq<Live>, rsp: int) {
    forall i :: 0 <= i < |live| ==>
      && (InAlt(sas, live[i].addr) || OutAlt(sas, live[i].addr))
      && (InAlt(sas, live[i].addr) ==> OnAlt(sas, rsp) && rsp <= live[i].addr)
      && (OutAlt(sas, live[i].addr) && !OnAlt(sas, rsp) ==> rsp <= live[i].addr)
  }

  /** The frame stays on the stack it belongs to, strictly inside the alternate one. */
  predicate Fits(sas: AltStack, act: Action, rsp: int, f: int) {
    if OnAlt(sas, rsp) || act.flags & SA_ONSTACK != 0 then sas.sp < f else OutAlt(sas, f)
  }

  /** The flags of a stack that is entered: none, or AUTODISARM alone. */
  predicate Enterable(f: bv32) {
    f == 0 || f == 0x8000_0000
  }

  lemma EnterIff(f: bv32, on: bool)
    ensures (if f & SS_DISABLE != 0 then SS_DISABLE else if on then SS_ONSTACK | f else f) & !SS_AUTODISARM == 0 <==>
            !on && Enterable(f)
    ensures SS_DISABLE & !SS_AUTODISARM != 0
  {
  }

  /** Where the frame goes: an alternate stack is entered only if it is enabled, enterable and not in use. */
  lemma FrameTopIs(sas: AltStack, act: Action, rsp: int)
    ensures FrameTop(sas, act, rsp) ==
            if act.flags & SA_ONSTACK != 0 && sas.size > 0 && Enterable(sas.flags) && !OnAlt(sas, rsp)
            then sas.sp + sas.size else rsp
  {
    hide Enterable;
    EnterIff(sas.flags, OnAlt(sas, rsp));
  }

  /** Where the frame goes: down from rsp, unless an SA_ONSTACK handler enters the alternate stack. */
  lemma PlainTop(sas: AltStack, act: Action, rsp: int)
    requires Plain(sas)
    ensures FrameTop(sas, act, rsp) ==
            if act.flags & SA_ONSTACK != 0 && !OnAlt(sas, rsp) then sas.sp + sas.size else rsp
  {
    assert (SS_ONSTACK | 0) & !SS_AUTODISARM != 0;
  }

  /** A nested frame does not fall on a live one, and the handler starts with a legal stack pointer. */
  lemma NestedApart(sas: AltStack, live: seq<Live>, act: Action, rsp: int, cpu: Cpu, mask: bv64)
    requires Plain(sas) && Legal(sas, live, rsp)
    requires Fits(sas, act, rsp, FrameTop(sas, act, rsp) - FRAME)
    ensures var f := FrameTop(sas, act, rsp) - FRAME;
            && (forall i :: 0 <= i < |live| ==> Apart(f, live[i].addr))
            && Legal(sas, live + [Live(f, cpu, mask)], f)
  {
    PlainTop(sas, act, rsp);
    hide FrameTop;
  }

  /**
   A first frame is put on the alternate stack, and later another SA_ONSTACK
   frame. The second is clear of the first exactly if the stack pointer is then
   still on the alternate stack and below the first frame. Once it has left the
   alternate stack, the second frame is put in the very same place.
   */
  lemma LeavingClobbers(sas: AltStack, act: Action, rsp: int, rsp': int)
    requires Plain(sas) && act.flags & SA_ONSTACK != 0 && !OnAlt(sas, rsp)
    ensures Apart(FrameTop(sas, act, rsp) - FRAME, FrameTop(sas, act, rsp') - FRAME) <==>
            OnAlt(sas, rsp') && rsp' <= FrameTop(sas, act, rsp) - FRAME
    ensures FrameTop(sas, act, rsp') == FrameTop(sas, act, rsp) <==> !OnAlt(sas, rsp')
  {
    PlainTop(sas, act, rsp);
    PlainTop(sas, act, rsp');
    hide FrameTop;
  }

  /**
   Second frames that fall on the first: the stack pointer just below the top of
   the alternate stack, and outside it.
   */
  lemma ClobberedFrames(act: Action)
    requires act.flags & SA_ONSTACK != 0
    ensures var sas := AltStack(0x10000, 0, 0x2000);
            var first := FrameTop(sas, act, 0x7000) - FRAME;
            && OnAlt(sas, 0x11fff) && !Apart(first, FrameTop(sas, act, 0x11fff) - FRAME)
            && !OnAlt(sas, 0x6000) && !Apart(first, FrameTop(sas, act, 0x6000) - FRAME)
  {
    var sas := AltStack(0x10000, 0, 0x2000);
    LeavingClobbers(sas, act, 0x7000, 0x11fff);
    LeavingClobbers(sas, act, 0x7000, 0x6000);
  }

  /**
   sigaltstack with a new stack to set. It is refused while the stack pointer is
   on the present one, if the new one is too small, and for unknown flags.
   */
  function Sigaltstack(sas: AltStack, rsp: int, ss: AltStack): (ret: int) {
    if SasFlags(sas, rsp) & SS_ONSTACK != 0 then -EPERM
    else if ss.size < MINSIGSTKSZ then -ENOMEM
    else if ss.flags & !SS_AUTODISARM !in {HOST_SS_DISABLE, SS_ONSTACK, 0} then -EINVAL
    else 0
  }

  /**
   Its answer, for every present and new stack. It refuses while the stack pointer
   is on the present one, unless that is disabled, as it is in a new process.
   */
  lemma SigaltstackIs(sas: AltStack, rsp: int, ss: AltStack)
    ensures var busy := sas.flags & SS_DISABLE == 0 && sas.size > 0 && (OnAlt(sas, rsp) || sas.flags & SS_ONSTACK != 0);
            var known := ss.flags in {0, 1, 4, 0x8000_0000, 0x8000_0001, 0x8000_0004};
            && (Sigaltstack(sas, rsp, ss) == -EPERM <==> busy)
            && (Sigaltstack(sas, rsp, ss) == -ENOMEM <==> !busy && ss.size < 2048)
            && (Sigaltstack(sas, rsp, ss) == -EINVAL <==> !busy && ss.size >= 2048 && !known)
            && (Sigaltstack(sas, rsp, ss) == 0 <==> !busy && ss.size >= 2048 && known)
  {
    OnStackBit(sas.flags);
    KnownFlags(ss.flags);
  }

  lemma OnStackBit(f: bv32)
    ensures (SS_ONSTACK | f) & SS_ONSTACK != 0 && SS_DISABLE & SS_ONSTACK == 0
  {
  }

  /** A guest that asks with its own SS_DISABLE is refused, whatever its stack. */
  lemma DisableRefused(sas: AltStack, rsp: int, ss: AltStack)
    requires ss.flags & !SS_AUTODISARM == SS_DISABLE
    ensures Sigaltstack(sas, rsp, ss) < 0
  {
  }

  lemma KnownFlags(f: bv32)
    ensures f & !SS_AUTODISARM in {HOST_SS_DISABLE, SS_ONSTACK, 0} <==>
            f in {0, 1, 4, 0x8000_0000, 0x8000_0001, 0x8000_0004}
  {
  }

  /** No live frame is on the stack, and no code that one of them interrupted. */
  ghost predicate Unused(sas: AltStack, live: seq<Live>) {
    forall i :: 0 <= i < |live| ==>
      |live[i].cpu.gp| == 18 && OutAlt(sas, live[i].addr) && !OnAlt(sas, live[i].cpu.gp[RSP])
  }

  /** The alternate stack stays, or is changed by sigaltstack for another one, both being unused. */
  ghost predicate StackChange(sas: AltStack, ss: AltStack, rsp: int, live: seq<Live>) {
    ss == sas || (Sigaltstack(sas, rsp, ss) == 0 && Plain(ss) && Unused(sas, live) && Unused(ss, live))
  }

  lemma PlainChange(sas: AltStack, ss: AltStack, rsp: int, live: seq<Live>)
    requires StackChange(sas, ss, rsp, live) && Plain(sas)
    ensures Plain(ss)
  {
  }

  lemma StillLegal(sas: AltStack, ss: AltStack, rsp: int, live: seq<Live>, i: int)
    requires StackChange(sas, ss, rsp, live) && 0 <= i < |live| && |live[i].cpu.gp| == 18
    requires Legal(sas, live[..i], live[i].cpu.gp[RSP])
    ensures Legal(ss, live[..i], live[i].cpu.gp[RSP])
  {
    hide Sigaltstack;
    forall j | 0 <= j < i && ss != sas
      ensures live[..i][j] == live[j] && OutAlt(ss, live[j].addr) && live[i].cpu.gp[RSP] <= live[j].addr
    {
    }
  }

  /** Code that keeps to its stack; a new alternate stack is a plain one that nobody uses. */
  ghost predicate Tame(s: Sys, step: Step)
    requires GoodCpu(s.m.cpu)
  {
    match step
    case Guest(cpu, mask, sas, mem) =>
      && Allowed(s, step) && StackChange(s.m.sas, sas, cpu.gp[RSP], s.live) && Legal(sas, s.live, cpu.gp[RSP])
    case Handle(act, sig, junk) =>
      && 1 <= sig <= 64 && Junk(junk) && Deliver(s.m, act, sig, junk).Some?
      && Fits(s.m.sas, act, s.m.cpu.gp[RSP], NewFrame(s, act)) && 0 <= NewFrame(s, act) < TWO64
    case Return(cpu) => Allowed(s, step)
  }

  ghost predicate Orderly(s: Sys) {
    && Inv(s) && Plain(s.m.sas) && Legal(s.m.sas, s.live, s.m.cpu.gp[RSP])
    && forall i :: 0 <= i < |s.live| ==> |s.live[i].cpu.gp| == 18 && Legal(s.m.sas, s.live[..i], s.live[i].cpu.gp[RSP])
  }

  lemma TameHandle(s: Sys, act: Action, sig: nat, junk: seq<nat>)
    requires Orderly(s) && Tame(s, Handle(act, sig, junk))
    ensures Allowed(s, Handle(act, sig, junk)) && Orderly(Next(s, Handle(act, sig, junk)))
  {
    hide Intact, Legal, FrameBytes, Save, Mapped, NewMask, SasFlags;
    NestedApart(s.m.sas, s.live, act, s.m.cpu.gp[RSP], s.m.cpu, s.m.mask);
    HandleKeeps(s, act, sig, junk);
    var s' := Next(s, Handle(act, sig, junk));
    assert s'.m.sas == s.m.sas && s'.m.cpu.gp[RSP] == NewFrame(s, act);
    forall i | 0 <= i < |s'.live|
      ensures |s'.live[i].cpu.gp| == 18 && Legal(s'.m.sas, s'.live[..i], s'.live[i].cpu.gp[RSP])
    {
      if i < |s.live| {
        assert s'.live[..i] == s.live[..i];
      } else {
        assert s'.live[..i] == s.live;
      }
    }
  }

  lemma TameStep(s: Sys, step: Step)
    requires Orderly(s) && Tame(s, step)
    ensures Allowed(s, step) && Orderly(Next(s, step))
  {
    hide Intact, Resume, Deliver;
    match step
    case Guest(cpu, mask, sas, mem) =>
      hide Legal, StackChange;
      StepKeeps(s, step);
      PlainChange(s.m.sas, sas, cpu.gp[RSP], s.live);
      forall i | 0 <= i < |s.live|
        ensures Legal(sas, s.live[..i], s.live[i].cpu.gp[RSP])
      {
        StillLegal(s.m.sas, sas, cpu.gp[RSP], s.live, i);
      }
    case Handle(act, sig, junk) =>
      TameHandle(s, act, sig, junk);
    case Return(cpu) =>
      hide Intact, Legal, Resume;
      ReturnRestores(s, cpu);
      var n := |s.live| - 1;
      assert forall i :: 0 <= i < n ==> s.live[..n][..i] == s.live[..i];
  }

  ghost predicate TameRun(s: Sys, steps: seq<Step>)
    decreases |steps|
  {
    GoodCpu(s.m.cpu) && (steps == [] || (Tame(s, steps[0]) && TameRun(Next(s, steps[0]), steps[1..])))
  }

  /** In runs of tame code no frame ever falls on a live one, so that every return restores what it should. */
  lemma {:induction false} TameRunsAllowed(s: Sys, steps: seq<Step>)
    requires Orderly(s) && TameRun(s, steps)
    ensures Runs(s, steps, -1) && Orderly(After(s, steps, -1))
    decreases |steps|
  {
    if steps != [] {
      TameStep(s, steps[0]);
      TameRunsAllowed(Next(s, steps[0]), steps[1..]);
    }
  }
}
