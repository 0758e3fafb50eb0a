/** Signal delivery and sigreturn: frames on the user stack that restore exactly what was interrupted. */
module Signals {
  import opened Bytes

  const SIG_MAX: u32 := 31
  const SIG_KILL: u32 := 9
  const SIG_SEGV: u32 := 11
  const SIG_CHLD: u32 := 17
  const SIG_STOP: u32 := 19
  const SIG_DFL: u32 := 0
  const SIG_IGN: u32 := 1

  const USER_BASE: nat := 0x0200_0000
  const USER_SIZE: nat := 0x0100_0000
  const STACK_TOP: nat := 0x0300_0000
  const STACK_FLOOR: nat := 0x02F8_0000
  const KERNEL_MEM: nat := 0x0400_0000
  const MEM_WORDS: nat := 0x0100_0000
  const CALL_ENTRIES: nat := 2048
  const CALL_BYTES: nat := 0x4000
  const DATA_ENTRIES: nat := 2048
  const DATA_BYTES: nat := 0x2000

  const FRAME_MAGIC: u32 := 0x3047_4953
  const FRAME_VERSION: u32 := 1
  const FRAME_WORDS: nat := 45
  const FRAME_BYTES: nat := 180

  type Regs = r: seq<u32> | |r| == 32 witness seq(32, _ => 0)

  /** The user context that an interrupt saved. */
  datatype Ctx = Ctx(regs: Regs, flags: u32, ip: u32, csp: u32, dsp: u32, callBase: u32, dataBase: u32, irqMasked: u32)

  datatype Action = Action(handler: u32, flags: u32, mask: bv32, restorer: u32)

  /** What delivery and sigreturn act on: the saved context, the signal mask, the newest frame's address, and memory by words. */
  datatype Machine = Machine(ctx: Ctx, mask: bv32, top: u32, mem: seq<u32>)

  type Frame = f: seq<u32> | |f| == FRAME_WORDS witness seq(FRAME_WORDS, _ => 0)

  // ---------- masks ----------

  /** `1 << n`. */
  function Shifted(n: nat): bv32 { if n == 0 then 1 else Shifted(n - 1) << 1 }

  function SigBit(sig: nat): bv32 { if 1 <= sig <= SIG_MAX then Shifted(sig - 1) else 0 }

  const UNCATCHABLE: bv32 := 0x0004_0100

  lemma UncatchableIsKillAndStop()
    ensures UNCATCHABLE == SigBit(SIG_KILL) | SigBit(SIG_STOP)
  {
  }

  predicate Clean(mask: bv32) { !Meets(mask, UNCATCHABLE) }

  function Union(a: bv32, b: bv32): bv32 { a | b }
  function Without(a: bv32, b: bv32): bv32 { a & !b }
  predicate Meets(a: bv32, b: bv32) { a & b != 0 }

  lemma AlwaysClean(mask: bv32)
    ensures Clean(Without(mask, UNCATCHABLE))
    ensures Clean(mask) ==> Without(mask, UNCATCHABLE) == mask
  {
  }

  // ---------- frames ----------

  function Word(mask: bv32): u32 { mask as int }

  /** What a frame records. */
  datatype Saved = Saved(ctx: Ctx, mask: bv32, prev: u32, sig: u32)

  function FrameOf(s: Saved): Frame
  {
    [FRAME_MAGIC, FRAME_VERSION, FRAME_BYTES, s.sig, s.prev, Word(s.mask), s.ctx.csp, s.ctx.dsp, s.ctx.callBase, s.ctx.dataBase,
      s.ctx.irqMasked, s.ctx.flags, s.ctx.ip] + s.ctx.regs
  }

  function CtxOf(f: Frame): Ctx
  {
    Ctx(f[13..45], f[11], f[12], f[6], f[7], f[8], f[9], f[10])
  }

  function MaskOf(f: Frame): bv32 { f[5] as bv32 }

  lemma FrameRoundTrip(s: Saved)
    ensures CtxOf(FrameOf(s)) == s.ctx && MaskOf(FrameOf(s)) == s.mask && FrameOf(s)[4] == s.prev && FrameOf(s)[3] == s.sig
  {
    assert FrameOf(s)[13..45] == s.ctx.regs;
  }

  lemma FrameFields(s: Saved)
    ensures var f := FrameOf(s);
      && f[0] == FRAME_MAGIC && f[1] == FRAME_VERSION && f[2] == FRAME_BYTES
      && f[3] == s.sig && f[4] == s.prev && f[5] == Word(s.mask)
      && f[6] == s.ctx.csp && f[7] == s.ctx.dsp && f[8] == s.ctx.callBase && f[9] == s.ctx.dataBase
      && f[10] == s.ctx.irqMasked && f[11] == s.ctx.flags && f[12] == s.ctx.ip && f[13..45] == s.ctx.regs
  {
    assert FrameOf(s)[13..45] == s.ctx.regs;
  }

  // ---------- checks ----------

  predicate UserCode(a: u32) { USER_BASE <= a < USER_BASE + USER_SIZE }

  predicate StackRange(a: u32, n: u32)
  {
    n != 0 && STACK_FLOOR <= a < STACK_TOP && n <= STACK_TOP - a
  }

  predicate ArchStack(base: u32, n: u32) { base != 0 && base < KERNEL_MEM && n <= KERNEL_MEM - base }

  /** Delivery to a handler goes ahead; otherwise the task is ended with SIGSEGV. */
  predicate Deliverable(c: Ctx, a: Action)
  {
    && UserCode(a.handler) && UserCode(a.restorer)
    && 0 < c.csp <= CALL_ENTRIES && c.dsp <= DATA_ENTRIES
    && ArchStack(c.callBase, CALL_BYTES) && ArchStack(c.dataBase, DATA_BYTES)
    && STACK_FLOOR + FRAME_BYTES <= c.regs[30] <= STACK_TOP
  }

  /** A handler and a restorer in user memory, a call stack that is not empty, stacks in the first 64 MiB, and room for a frame:
      no other check stands between a signal and its handler. */
  lemma DeliverableIff(c: Ctx, a: Action)
    ensures Deliverable(c, a) <==>
      && 0x0200_0000 <= a.handler < 0x0300_0000 && 0x0200_0000 <= a.restorer < 0x0300_0000
      && 1 <= c.csp <= 2048 && c.dsp <= 2048
      && 1 <= c.callBase <= 0x0400_0000 - 2048 * 8 && 1 <= c.dataBase <= 0x0400_0000 - 2048 * 4
      && 0x0300_0000 - 0x8_0000 + 180 <= c.regs[30] <= 0x0300_0000
  {
  }

  function FrameAddr(sp: u32): u32
    requires sp >= FRAME_BYTES
  {
    (sp - FRAME_BYTES) / 16 * 16
  }

  lemma FrameFits(sp: u32)
    requires STACK_FLOOR + FRAME_BYTES <= sp <= STACK_TOP
    ensures StackRange(FrameAddr(sp), FRAME_BYTES) && FrameAddr(sp) + FRAME_BYTES <= sp && FrameAddr(sp) % 16 == 0
  {
  }

  /** The frame at address `a`. */
  function FrameAt(mem: seq<u32>, a: u32): Frame
    requires |mem| == MEM_WORDS && StackRange(a, FRAME_BYTES)
  {
    mem[a / 4..a / 4 + FRAME_WORDS]
  }

  predicate ReturnOk(m: Machine, a: u32)
    requires |m.mem| == MEM_WORDS
  {
    StackRange(a, FRAME_BYTES) && m.top == a &&
    var f := FrameAt(m.mem, a);
    && f[0] == FRAME_MAGIC && f[1] == FRAME_VERSION && f[2] == FRAME_BYTES
    && UserCode(f[12]) && STACK_FLOOR <= f[13..45][30] <= STACK_TOP
    && f[6] <= CALL_ENTRIES && f[7] <= DATA_ENTRIES
    && ArchStack(f[8], CALL_BYTES) && ArchStack(f[9], DATA_BYTES)
    && (f[4] != 0 ==> StackRange(f[4], FRAME_BYTES))
  }

  // ---------- the two steps ----------

  function Put(mem: seq<u32>, a: nat, words: seq<u32>): (r: seq<u32>)
    requires a + |words| <= |mem|
    ensures |r| == |mem| && r[a..a + |words|] == words
    ensures forall i :: 0 <= i < |mem| && !(a <= i < a + |words|) ==> r[i] == mem[i]
  {
    mem[..a] + words + mem[a + |words|..]
  }

  function SlotWord(c: Ctx): nat
    requires c.csp > 0
  {
    (c.callBase + (c.csp - 1) * 8) / 4
  }

  /** The irq-mask flag is kept as 0 or 1. */
  function Flag(x: u32): u32 { if x != 0 then 1 else 0 }

  /** A signal is delivered to a handler: the context goes into a frame below the user stack, and the handler runs. */
  function Deliver(m: Machine, sig: u32, a: Action): (r: Machine)
    requires |m.mem| == MEM_WORDS && Deliverable(m.ctx, a)
    ensures |r.mem| == MEM_WORDS
  {
    FrameFits(m.ctx.regs[30]);
    var addr := FrameAddr(m.ctx.regs[30]);
    var mem1 := Put(m.mem, addr / 4, FrameOf(Saved(m.ctx, m.mask, m.top, sig)));
    var mem2 := Put(mem1, SlotWord(m.ctx), [a.restorer, 0]);
    Machine(
      m.ctx.(csp := m.ctx.csp - 1, regs := m.ctx.regs[0 := sig][1 := addr][30 := addr], ip := a.handler, irqMasked := Flag(m.ctx.irqMasked)),
      Without(Union(Union(m.mask, a.mask), SigBit(sig)), UNCATCHABLE),
      addr,
      mem2)
  }

  /** Sigreturn takes everything back from the newest frame. */
  function Return(m: Machine, a: u32): Machine
    requires |m.mem| == MEM_WORDS && ReturnOk(m, a)
  {
    var f := FrameAt(m.mem, a);
    var c := CtxOf(f);
    Machine(c.(irqMasked := Flag(c.irqMasked)), Without(MaskOf(f), UNCATCHABLE), f[4], m.mem)
  }

  // ---------- what a handler may do, and the stack of frames ----------

  /** A context a user program can be interrupted in: user code, and its call stack apart from the user stack. */
  predicate CtxOk(c: Ctx)
  {
    && UserCode(c.ip) && c.irqMasked <= 1 && c.callBase % 8 == 0
    && (c.callBase + CALL_BYTES <= STACK_FLOOR || STACK_TOP <= c.callBase)
  }

  /** The frames of the interrupted contexts, oldest first, lie on the user stack each below the one before, and are linked. */
  ghost predicate Live(mem: seq<u32>, top: u32, st: seq<Saved>, base: u32)
    requires |mem| == MEM_WORDS
    decreases |st|
  {
    if st == [] then top == base && (base != 0 ==> StackRange(base, FRAME_BYTES))
    else
      var s := st[|st| - 1];
      && STACK_FLOOR + FRAME_BYTES <= s.ctx.regs[30] <= STACK_TOP
      && top == FrameAddr(s.ctx.regs[30])
      && StackRange(top, FRAME_BYTES) && FrameAt(mem, top) == FrameOf(s)
      && CtxOk(s.ctx) && s.ctx.csp <= CALL_ENTRIES && s.ctx.dsp <= DATA_ENTRIES
      && ArchStack(s.ctx.callBase, CALL_BYTES) && ArchStack(s.ctx.dataBase, DATA_BYTES)
      && Clean(s.mask)
      && (|st| > 1 ==> s.ctx.regs[30] <= s.prev)
      && Live(mem, s.prev, st[..|st| - 1], base)
  }

  /** Memory `mem2` holds the words of every live frame as `mem` does. */
  ghost predicate FramesKept(mem: seq<u32>, mem2: seq<u32>, top: u32, st: seq<Saved>)
    requires |mem| == MEM_WORDS && |mem2| == MEM_WORDS
    decreases |st|
  {
    st == [] || (StackRange(top, FRAME_BYTES) && FrameAt(mem2, top) == FrameAt(mem, top)
      && FramesKept(mem, mem2, st[|st| - 1].prev, st[..|st| - 1]))
  }

  lemma {:induction false} KeptStaysLive(mem: seq<u32>, mem2: seq<u32>, top: u32, st: seq<Saved>, base: u32)
    requires |mem| == MEM_WORDS && |mem2| == MEM_WORDS && Live(mem, top, st, base) && FramesKept(mem, mem2, top, st)
    ensures Live(mem2, top, st, base)
    decreases |st|
  {
    if st != [] {
      KeptStaysLive(mem, mem2, st[|st| - 1].prev, st[..|st| - 1], base);
    }
  }

  /** A store below `lo` or off the user stack leaves all frames from `lo` up alone. */
  lemma {:induction false} StoreKeepsFrames(mem: seq<u32>, mem2: seq<u32>, top: u32, st: seq<Saved>, base: u32, lo: nat)
    requires |mem| == MEM_WORDS && |mem2| == MEM_WORDS && Live(mem, top, st, base)
    requires st != [] ==> lo <= top
    requires forall i :: lo / 4 <= i < STACK_TOP / 4 ==> mem2[i] == mem[i]
    ensures FramesKept(mem, mem2, top, st)
    decreases |st|
  {
    if st != [] {
      var s := st[|st| - 1];
      FrameFits(s.ctx.regs[30]);
      StoreKeepsFrames(mem, mem2, s.prev, st[..|st| - 1], base, lo);
    }
  }

  /** Delivery pushes one frame. */
  lemma DeliverPushes(m: Machine, sig: u32, a: Action, st: seq<Saved>, base: u32)
    requires |m.mem| == MEM_WORDS && Live(m.mem, m.top, st, base) && Deliverable(m.ctx, a) && CtxOk(m.ctx) && Clean(m.mask)
    requires st != [] ==> m.ctx.regs[30] <= m.top
    ensures var r := Deliver(m, sig, a);
      Live(r.mem, r.top, st + [Saved(m.ctx, m.mask, m.top, sig)], base) && Clean(r.mask)
  {
    hide FrameOf, SigBit;
    var r := Deliver(m, sig, a);
    var s := Saved(m.ctx, m.mask, m.top, sig);
    FrameFits(m.ctx.regs[30]);
    AlwaysClean(Union(Union(m.mask, a.mask), SigBit(sig)));
    var lo := m.ctx.regs[30];
    forall i | lo / 4 <= i < STACK_TOP / 4
      ensures r.mem[i] == m.mem[i]
    {
    }
    StoreKeepsFrames(m.mem, r.mem, m.top, st, base, lo);
    KeptStaysLive(m.mem, r.mem, m.top, st, base);
    assert (st + [s])[..|st|] == st;
    assert FrameAt(r.mem, r.top) == FrameOf(s);
  }

  /** Sigreturn succeeds on the newest frame and restores what it records, exactly. */
  lemma ReturnPops(m: Machine, st: seq<Saved>, base: u32)
    requires |m.mem| == MEM_WORDS && Live(m.mem, m.top, st, base) && st != []
    ensures ReturnOk(m, m.top)
    ensures var r, s := Return(m, m.top), st[|st| - 1];
      r.ctx == s.ctx && r.mask == s.mask && r.top == s.prev && Live(r.mem, r.top, st[..|st| - 1], base)
  {
    hide FrameOf, CtxOf, MaskOf, FrameAt, FrameAddr, SigBit;
    var s := st[|st| - 1];
    FrameRoundTrip(s);
    FrameFields(s);
    AlwaysClean(s.mask);
  }

  /** The frames of a stack are pairwise disjoint, the newer ones lower. */
  lemma {:induction false} FramesDisjoint(mem: seq<u32>, top: u32, st: seq<Saved>, base: u32, i: nat, j: nat)
    requires |mem| == MEM_WORDS && Live(mem, top, st, base) && i < j < |st|
    ensures st[i].ctx.regs[30] >= FRAME_BYTES && st[j].ctx.regs[30] >= FRAME_BYTES
    ensures FrameAddr(st[j].ctx.regs[30]) + FRAME_BYTES <= FrameAddr(st[i].ctx.regs[30])
    ensures StackRange(FrameAddr(st[i].ctx.regs[30]), FRAME_BYTES) && StackRange(FrameAddr(st[j].ctx.regs[30]), FRAME_BYTES)
    decreases |st|
  {
    var n := |st| - 1;
    var s := st[n];
    FrameFits(s.ctx.regs[30]);
    if j < n {
      FramesDisjoint(mem, s.prev, st[..n], base, i, j);
    } else if i < n - 1 {
      FramesDisjoint(mem, s.prev, st[..n], base, i, n - 1);
      FrameFits(st[n - 1].ctx.regs[30]);
    }
  }

  // ---------- runs ----------

  /** A signal is delivered, a handler runs for a while, or a handler returns. */
  datatype Event = Signal(sig: u32, act: Action) | Handler(after: Machine) | Sigreturn

  /** A handler leaves the live frames alone; its mask can only come from the mask call, which never sets KILL or STOP. */
  ghost predicate HandlerOk(m: Machine, x: Machine, st: seq<Saved>)
    requires |m.mem| == MEM_WORDS
  {
    |x.mem| == MEM_WORDS && x.top == m.top && Clean(x.mask) && CtxOk(x.ctx) && FramesKept(m.mem, x.mem, m.top, st)
  }

  ghost predicate Ok(m: Machine, st: seq<Saved>, base: u32)
  {
    |m.mem| == MEM_WORDS && Live(m.mem, m.top, st, base) && Clean(m.mask) && CtxOk(m.ctx)
  }

  ghost predicate Enabled(m: Machine, st: seq<Saved>, e: Event)
    requires |m.mem| == MEM_WORDS
  {
    match e
    case Signal(sig, a) => Deliverable(m.ctx, a) && (st != [] ==> m.ctx.regs[30] <= m.top)
    case Handler(x) => HandlerOk(m, x, st)
    case Sigreturn => st != [] && ReturnOk(m, m.top)
  }

  /** Run `evs` leads from m with stack st to m2 with stack st2 and never leaves fewer than h frames. */
  ghost predicate Runs(m: Machine, st: seq<Saved>, evs: seq<Event>, h: nat, m2: Machine, st2: seq<Saved>)
    decreases |evs|
  {
    |m.mem| == MEM_WORDS && h <= |st| &&
    if evs == [] then m2 == m && st2 == st
    else
      Enabled(m, st, evs[0]) &&
      match evs[0]
      case Signal(sig, a) => Runs(Deliver(m, sig, a), st + [Saved(m.ctx, m.mask, m.top, sig)], evs[1..], h, m2, st2)
      case Handler(x) => Runs(x, st, evs[1..], h, m2, st2)
      case Sigreturn => Runs(Return(m, m.top), st[..|st| - 1], evs[1..], h, m2, st2)
  }

  lemma HandlerKeeps(m: Machine, x: Machine, st: seq<Saved>, base: u32)
    requires Ok(m, st, base) && HandlerOk(m, x, st)
    ensures Ok(x, st, base)
  {
    KeptStaysLive(m.mem, x.mem, m.top, st, base);
  }

  lemma SignalKeeps(m: Machine, sig: u32, a: Action, st: seq<Saved>, base: u32)
    requires Ok(m, st, base) && Enabled(m, st, Signal(sig, a))
    ensures Ok(Deliver(m, sig, a), st + [Saved(m.ctx, m.mask, m.top, sig)], base)
  {
    DeliverPushes(m, sig, a, st, base);
  }

  lemma ReturnKeeps(m: Machine, st: seq<Saved>, base: u32)
    requires Ok(m, st, base) && st != []
    ensures ReturnOk(m, m.top) && Ok(Return(m, m.top), st[..|st| - 1], base)
  {
    hide FrameAt, FrameAddr;
    ReturnPops(m, st, base);
  }

  /** Along every run the frames stay live and linked, and those below height h are the same as at the start. */
  lemma {:induction false} RunsKeep(m: Machine, st: seq<Saved>, evs: seq<Event>, h: nat, m2: Machine, st2: seq<Saved>, base: u32)
    requires Ok(m, st, base) && Runs(m, st, evs, h, m2, st2)
    ensures Ok(m2, st2, base) && h <= |st| && h <= |st2| && st2[..h] == st[..h]
    decreases |evs|
  {
    hide Ok, Deliver, Return, HandlerOk, ReturnOk;
    if evs != [] {
      match evs[0]
      case Signal(sig, a) =>
        SignalKeeps(m, sig, a, st, base);
        RunsKeep(Deliver(m, sig, a), st + [Saved(m.ctx, m.mask, m.top, sig)], evs[1..], h, m2, st2, base);
      case Handler(x) =>
        HandlerKeeps(m, x, st, base);
        RunsKeep(x, st, evs[1..], h, m2, st2, base);
      case Sigreturn =>
        ReturnKeeps(m, st, base);
        RunsKeep(Return(m, m.top), st[..|st| - 1], evs[1..], h, m2, st2, base);
    }
  }

  /** However many signals come in between, nested or one after the other, the sigreturn that belongs to a delivery
      succeeds and restores registers, instruction pointer, stack indices and bases, mask and frame chain exactly. */
  lemma NestedRestores(m: Machine, st: seq<Saved>, base: u32, sig: u32, a: Action, inner: seq<Event>, m2: Machine, st2: seq<Saved>)
    requires Ok(m, st, base) && Enabled(m, st, Signal(sig, a))
    requires Runs(Deliver(m, sig, a), st + [Saved(m.ctx, m.mask, m.top, sig)], inner, |st| + 1, m2, st2)
    requires |st2| == |st| + 1
    ensures |m2.mem| == MEM_WORDS && ReturnOk(m2, m2.top)
    ensures var r := Return(m2, m2.top);
      r.ctx == m.ctx && r.mask == m.mask && r.top == m.top && Ok(r, st, base)
  {
    hide Deliver, Return, FrameAt, FrameAddr, ReturnOk, Live, Runs, Clean, CtxOk;
    var st1 := st + [Saved(m.ctx, m.mask, m.top, sig)];
    SignalKeeps(m, sig, a, st, base);
    RunsKeep(Deliver(m, sig, a), st1, inner, |st| + 1, m2, st2, base);
    assert st2 == st1[..|st| + 1] == st1;
    ReturnPops(m2, st2, base);
    ReturnKeeps(m2, st2, base);
    assert st2[..|st2| - 1] == st;
  }

  /** KILL and STOP are in the mask of no reachable state and of no frame. */
  lemma {:induction false} NeverMasked(m: Machine, st: seq<Saved>, base: u32, k: nat)
    requires Ok(m, st, base) && k < |st|
    ensures m.mask & SigBit(SIG_KILL) == 0 && m.mask & SigBit(SIG_STOP) == 0
    ensures st[k].mask & SigBit(SIG_KILL) == 0 && st[k].mask & SigBit(SIG_STOP) == 0
    decreases |st|
  {
    CleanMeans(m.mask);
    var n := |st| - 1;
    CleanMeans(st[n].mask);
    if k < n {
      NeverMaskedBelow(m.mem, m.top, st, base, k);
    }
  }

  lemma {:induction false} NeverMaskedBelow(mem: seq<u32>, top: u32, st: seq<Saved>, base: u32, k: nat)
    requires |mem| == MEM_WORDS && Live(mem, top, st, base) && k < |st|
    ensures st[k].mask & SigBit(SIG_KILL) == 0 && st[k].mask & SigBit(SIG_STOP) == 0
    decreases |st|
  {
    var n := |st| - 1;
    CleanMeans(st[n].mask);
    if k < n {
      NeverMaskedBelow(mem, st[n].prev, st[..n], base, k);
    }
  }

  lemma CleanMeans(mask: bv32)
    requires Clean(mask)
    ensures mask & SigBit(SIG_KILL) == 0 && mask & SigBit(SIG_STOP) == 0
  {
    hide SigBit;
    UncatchableIsKillAndStop();
  }

  // ---------- what a delivery is for ----------

  /** The words from address `top` on record the interrupted machine m and the signal. */
  predicate Recorded(m: Machine, mem: seq<u32>, top: u32, sig: u32)
    requires |mem| == MEM_WORDS && top + FRAME_BYTES <= STACK_TOP
  {
    var w := top / 4;
    && mem[w] == FRAME_MAGIC && mem[w + 1] == FRAME_VERSION && mem[w + 2] == FRAME_BYTES
    && mem[w + 3] == sig && mem[w + 4] == m.top && mem[w + 5] == m.mask as int
    && mem[w + 6] == m.ctx.csp && mem[w + 7] == m.ctx.dsp && mem[w + 8] == m.ctx.callBase && mem[w + 9] == m.ctx.dataBase
    && mem[w + 10] == m.ctx.irqMasked && mem[w + 11] == m.ctx.flags && mem[w + 12] == m.ctx.ip
    && mem[w + 13..w + FRAME_WORDS] == m.ctx.regs
  }

  /** Signal n is blocked in x if it was in m, or the action asks for it, or it is the signal delivered; but KILL and STOP never are. */
  predicate Blocks(m: bv32, a: bv32, sig: u32, x: bv32, n: u32)
  {
    Meets(x, SigBit(n)) <==> n != SIG_KILL && n != SIG_STOP && (n == sig || Meets(m, SigBit(n)) || Meets(a, SigBit(n)))
  }

  /** Word index `i` belongs to the frame at `top` or to the return slot at byte address `slot`. */
  predicate Stored(top: u32, slot: nat, i: nat)
  {
    top / 4 <= i < top / 4 + FRAME_WORDS || slot / 4 <= i < slot / 4 + 2
  }

  /** The handler runs: x is machine m at the first instruction of the handler for `sig`, with the signal and the frame's address as
      arguments, a return to the restorer on the call stack, and the interrupted context on the user stack, within 16 bytes of its end. */
  predicate Entered(m: Machine, x: Machine, sig: u32, a: Action)
  {
    && |m.mem| == MEM_WORDS == |x.mem| && m.ctx.csp > 0
    && x.ctx.ip == a.handler
    && x.ctx.regs[0] == sig && x.ctx.regs[1] == x.top && x.ctx.regs[30] == x.top
    && (forall i | 2 <= i < 32 && i != 30 :: x.ctx.regs[i] == m.ctx.regs[i])
    && x.ctx.csp == m.ctx.csp - 1
    && x.ctx.flags == m.ctx.flags && x.ctx.dsp == m.ctx.dsp && x.ctx.callBase == m.ctx.callBase && x.ctx.dataBase == m.ctx.dataBase
    && (x.ctx.irqMasked == 0 <==> m.ctx.irqMasked == 0) && x.ctx.irqMasked <= 1
    && STACK_FLOOR <= x.top && x.top % 16 == 0 && x.top + FRAME_BYTES <= m.ctx.regs[30] < x.top + FRAME_BYTES + 16
    && m.ctx.regs[30] <= STACK_TOP
    && var slot := m.ctx.callBase + 8 * x.ctx.csp;
    && slot / 4 + 2 <= MEM_WORDS && x.mem[slot / 4] == a.restorer && x.mem[slot / 4 + 1] == 0
    && (forall i | 0 <= i < MEM_WORDS && !Stored(x.top, slot, i) :: x.mem[i] == m.mem[i])
    && (CtxOk(m.ctx) ==> Recorded(m, x.mem, x.top, sig))
    && (forall n: u32 | 1 <= n <= SIG_MAX :: Blocks(m.mask, a.mask, sig, x.mask, n))
    && x.mask & 0x8000_0000 == (m.mask | a.mask) & 0x8000_0000
  }

  /** Delivery makes the handler run. */
  lemma DeliverEnters(m: Machine, sig: u32, a: Action)
    requires |m.mem| == MEM_WORDS && Deliverable(m.ctx, a) && 1 <= sig <= SIG_MAX
    ensures Entered(m, Deliver(m, sig, a), sig, a)
  {
    hide SigBit, Meets, Union, Without, Blocks, Recorded, FrameOf, CtxOk;
    var x := Deliver(m, sig, a);
    FrameFits(m.ctx.regs[30]);
    BlocksExactly(m.mask, a.mask, sig);
    TopBit(m.mask, a.mask, sig);
    if CtxOk(m.ctx) {
      DeliverRecords(m, sig, a);
    }
  }

  lemma DeliverRecords(m: Machine, sig: u32, a: Action)
    requires |m.mem| == MEM_WORDS && Deliverable(m.ctx, a) && CtxOk(m.ctx)
    ensures var x := Deliver(m, sig, a); x.top + FRAME_BYTES <= STACK_TOP && Recorded(m, x.mem, x.top, sig)
  {
    hide SigBit, Meets, Union, Without, FrameOf, Recorded;
    var x := Deliver(m, sig, a);
    FrameFits(m.ctx.regs[30]);
    var f := FrameOf(Saved(m.ctx, m.mask, m.top, sig));
    assert x.mem[x.top / 4..x.top / 4 + FRAME_WORDS] == f;
    FrameRecords(m, x.mem, x.top, sig);
  }

  /** A stored frame records the machine. */
  lemma FrameRecords(m: Machine, mem: seq<u32>, top: u32, sig: u32)
    requires |mem| == MEM_WORDS && top + FRAME_BYTES <= STACK_TOP
    requires mem[top / 4..top / 4 + FRAME_WORDS] == FrameOf(Saved(m.ctx, m.mask, m.top, sig))
    ensures Recorded(m, mem, top, sig)
  {
    hide FrameOf;
    var w, f := top / 4, mem[top / 4..top / 4 + FRAME_WORDS];
    FrameFields(Saved(m.ctx, m.mask, m.top, sig));
    assert mem[w + 13..w + FRAME_WORDS] == f[13..45];
    assert forall k | 0 <= k < FRAME_WORDS :: f[k] == mem[w + k];
  }

  /** The mask in a handler, signal by signal. */
  lemma BlocksExactly(m: bv32, a: bv32, sig: u32)
    requires 1 <= sig <= SIG_MAX
    ensures forall n: u32 | 1 <= n <= SIG_MAX :: Blocks(m, a, sig, Without(Union(Union(m, a), SigBit(sig)), UNCATCHABLE), n)
  {
    hide SigBit, Meets, Union, Without;
    UncatchableIsKillAndStop();
    forall n: u32 | 1 <= n <= SIG_MAX
      ensures Blocks(m, a, sig, Without(Union(Union(m, a), SigBit(sig)), UNCATCHABLE), n)
    {
      MeetsUnion(m, a, SigBit(n));
      MeetsUnion(Union(m, a), SigBit(sig), SigBit(n));
      SameBitMeets(sig, n);
      if n == SIG_KILL || n == SIG_STOP {
        InsideIsGone(Union(Union(m, a), SigBit(sig)), UNCATCHABLE, SigBit(n));
      } else {
        SigBitsDisjoint(n, SIG_KILL);
        SigBitsDisjoint(n, SIG_STOP);
        ApartFromBoth(SigBit(n), SigBit(SIG_KILL), SigBit(SIG_STOP));
        OtherBitStays(Union(Union(m, a), SigBit(sig)), UNCATCHABLE, SigBit(n));
      }
    }
  }

  lemma MeetsUnion(a: bv32, b: bv32, x: bv32)
    ensures Meets(Union(a, b), x) <==> Meets(a, x) || Meets(b, x)
  {
    hide Union;
    Distributes(a, b, x);
    OrIsZero(a & x, b & x);
  }

  lemma Distributes(a: bv32, b: bv32, x: bv32)
    ensures Union(a, b) & x == (a & x) | (b & x)
  {
  }

  lemma OrIsZero(y: bv32, z: bv32)
    ensures y | z == 0 <==> y == 0 && z == 0
  {
  }

  lemma InsideIsGone(a: bv32, u: bv32, x: bv32)
    requires u & x == x
    ensures !Meets(Without(a, u), x)
  {
  }

  lemma ApartFromBoth(x: bv32, a: bv32, b: bv32)
    requires x & a == 0 && x & b == 0
    ensures x & (a | b) == 0
  {
  }

  lemma SameBitMeets(sig: u32, n: u32)
    requires 1 <= sig <= SIG_MAX && 1 <= n <= SIG_MAX
    ensures Meets(SigBit(sig), SigBit(n)) <==> sig == n
  {
    if sig == n {
      LastShift();
      if Shifted(n - 1) == 0 {
        ZeroStays(n - 1, 31);
      }
    } else {
      SigBitsDisjoint(sig, n);
    }
  }

  /** A bit shifted out stays out. */
  lemma {:induction false} ZeroStays(k: nat, j: nat)
    requires k <= j && Shifted(k) == 0
    ensures Shifted(j) == 0
    decreases j
  {
    if k < j {
      ZeroStays(k, j - 1);
    }
  }

  lemma LastShift()
    ensures Shifted(31) == 0x8000_0000
  {
    assert Shifted(8) == 0x100;
    assert Shifted(16) == 0x1_0000;
    assert Shifted(24) == 0x100_0000;
  }

  lemma TopBit(m: bv32, a: bv32, sig: u32)
    requires 1 <= sig <= SIG_MAX
    ensures Without(Union(Union(m, a), SigBit(sig)), UNCATCHABLE) & 0x8000_0000 == (m | a) & 0x8000_0000
  {
    LastShift();
    ShiftedDisjoint(sig - 1, 31);
    TopBitStays(m, a, SigBit(sig));
  }

  lemma TopBitStays(m: bv32, a: bv32, b: bv32)
    requires b & 0x8000_0000 == 0
    ensures Without(Union(Union(m, a), b), UNCATCHABLE) & 0x8000_0000 == (m | a) & 0x8000_0000
  {
  }

  /** While its handler's mask stays as delivery set it, no signal that can be blocked is chosen a second time, whatever is pending. */
  lemma NotChosenAgain(m: Machine, x: Machine, sig: u32, a: Action, p: bv32)
    requires 1 <= sig <= SIG_MAX && sig != SIG_KILL && sig != SIG_STOP && Entered(m, x, sig, a)
    ensures !Meets(Without(p, x.mask), SigBit(sig))
  {
    hide SigBit, Recorded, Stored, CtxOk, Meets, Without;
    assert Blocks(m.mask, a.mask, sig, x.mask, sig);
    SigBitIsOneBit(sig);
    BlockedBit(p, x.mask, SigBit(sig));
  }

  lemma BlockedBit(p: bv32, mask: bv32, b: bv32)
    requires OneBit(b) && Meets(mask, b)
    ensures !Meets(Without(p, mask), b)
  {
  }

  // ---------- the operations ----------

  /** What comes of looking for signals on the way back to user code. */
  datatype Outcome = NoSignal | Delivered | Exits(code: u32)

  datatype How = Block | Unblock | SetMask | Other

  predicate Ignored(a: Action, sig: u32) { a.handler == SIG_IGN || (a.handler == SIG_DFL && sig == SIG_CHLD) }

  /** The action for a signal. */
  function ActionOf(actions: seq<Action>, sig: u32): Action
    requires |actions| == 32 && sig <= SIG_MAX
  {
    actions[sig]
  }

  class SignalTask {
    var ctx: Ctx
    var mask: bv32
    var pending: bv32
    var top: u32
    const mem: array<u32>
    var actions: seq<Action>

    ghost predicate Valid()
      reads this
    {
      mem.Length == MEM_WORDS && |actions| == 32 && Clean(mask)
    }

    ghost function Abs(): Machine
      reads this, mem
    {
      Machine(ctx, mask, top, mem[..])
    }

    constructor (ctx: Ctx, mem: array<u32>)
      requires mem.Length == MEM_WORDS
      ensures Valid() && this.ctx == ctx && this.mem == mem && mask == 0 && top == 0
    {
      this.ctx := ctx;
      this.mem := mem;
      mask, pending, top := 0, 0, 0;
      actions := seq(32, _ => Action(SIG_DFL, 0, 0, 0));
    }

    /** Changes the mask; KILL and STOP never get into it. */
    method SignalMask(how: How, wanted: bv32) returns (ok: bool, before: bv32)
      requires Valid()
      modifies this`mask
      ensures Valid() && before == old(mask)
      ensures ok <==> how != Other
      ensures how == Block ==> mask == Union(old(mask), Without(wanted, UNCATCHABLE))
      ensures how == Unblock ==> mask == Without(old(mask), wanted)
      ensures how == SetMask ==> mask == Without(wanted, UNCATCHABLE)
      ensures how == Other ==> mask == old(mask)
    {
      assert !Meets(mask, UNCATCHABLE);
      hide Union, Without, Clean, Meets;
      BlockBits(mask, wanted, UNCATCHABLE);
      UnblockBits(mask, wanted, UNCATCHABLE);
      SetBits(wanted, UNCATCHABLE);
      var keep := Without(wanted, UNCATCHABLE);
      before := mask;
      var next := mask;
      match how {
        case Block => next := Union(next, keep);
        case Unblock => next := Without(next, keep);
        case SetMask => next := keep;
        case Other => return false, before;
      }
      CleanedIsClean(next);
      mask := Without(next, UNCATCHABLE);
      ok := true;
    }

    /** Scans for the lowest signal in a mask. */
    method LowestSignal(d: bv32) returns (sig: u32)
      ensures 1 <= sig <= SIG_MAX + 1 && (sig <= SIG_MAX ==> Meets(d, SigBit(sig)))
      ensures forall n: nat | n < sig :: !Meets(d, SigBit(n))
    {
      hide SigBit, Meets;
      sig := 1;
      BitZero(d);
      while sig <= SIG_MAX && !Meets(d, SigBit(sig))
        invariant 1 <= sig <= SIG_MAX + 1
        invariant forall n: nat | n < sig :: !Meets(d, SigBit(n))
        decreases SIG_MAX + 1 - sig
      {
        sig := sig + 1;
      }
    }

    /** Takes the lowest deliverable signal that is not ignored out of the pending ones, dropping ignored ones on the way; 0 if there is none. */
    method SelectSignal() returns (sig: u32)
      requires Valid()
      modifies this`pending
      ensures Valid() && sig <= SIG_MAX
      ensures OnlyUnmaskedDropped(old(pending), pending, mask)
      ensures sig == 0 ==> forall n: nat :: !Meets(Without(pending, mask), SigBit(n))
      ensures sig != 0 ==> Meets(Without(old(pending), mask), SigBit(sig)) && !Meets(pending, SigBit(sig)) && !Ignored(ActionOf(actions, sig), sig)
      ensures sig != 0 ==> forall n: nat | n < sig :: !Meets(Without(pending, mask), SigBit(n))
      ensures OnlyIgnoredLost(old(pending), pending, actions, sig)
    {
      hide SigBit, Union, Without, Meets, OnlyUnmaskedDropped, OnlyIgnoredLost, Clean, ActionOf, Ignored;
      NothingDropped(pending, mask);
      NothingLost(pending, actions);
      while true
        invariant OnlyUnmaskedDropped(old(pending), pending, mask)
        invariant OnlyIgnoredLost(old(pending), pending, actions, 0)
        decreases pending
      {
        var deliverable := Without(pending, mask);
        if deliverable == 0 {
          NothingMeets();
          return 0;
        }
        sig := LowestSignal(deliverable);
        if sig > SIG_MAX {
          NoBitBeyond(deliverable);
          return 0;
        }
        SigBitIsOneBit(sig);
        DropOne(old(pending), pending, mask, SigBit(sig));
        Dropping(pending, mask, SigBit(sig));
        LosesOne(old(pending), pending, actions, sig);
        pending := Without(pending, SigBit(sig));
        if !Ignored(ActionOf(actions, sig), sig) {
          return;
        }
      }
    }

    /** Stores words from word index `w` on. */
    method StoreWords(w: nat, words: seq<u32>)
      requires w + |words| <= mem.Length
      modifies mem
      ensures mem[..] == Put(old(mem[..]), w, words)
    {
      for i := 0 to |words|
        invariant forall k :: 0 <= k < mem.Length ==> mem[k] == if w <= k < w + i then words[k - w] else old(mem[k])
      {
        mem[w + i] := words[i];
      }
    }

    /** On the way back to user code: ends the task, or makes the user context run the handler of a pending signal. */
    method DeliverPending() returns (o: Outcome)
      requires Valid()
      modifies this, mem
      ensures Valid() && OnlyUnmaskedDropped(old(pending), pending, old(mask)) && actions == old(actions)
      ensures o == NoSignal ==> OnlyIgnoredLost(old(pending), pending, actions, 0)
      ensures o == NoSignal ==> forall n: u32 | 1 <= n <= SIG_MAX && Meets(old(pending), SigBit(n)) && !Meets(pending, SigBit(n)) ::
        actions[n].handler == SIG_IGN || (actions[n].handler == SIG_DFL && n == SIG_CHLD)
      ensures o != Delivered ==> Abs() == old(Abs())
      ensures o == NoSignal ==> forall n: nat :: !Meets(Without(pending, mask), SigBit(n))
      ensures o == Delivered ==> exists sig: u32 ::
        && 1 <= sig <= SIG_MAX && Meets(Without(old(pending), old(mask)), SigBit(sig)) && !Meets(pending, SigBit(sig))
        && (forall n: nat | n < sig :: !Meets(Without(pending, old(mask)), SigBit(n)))
        && OnlyIgnoredLost(old(pending), pending, actions, sig) && !Ignored(ActionOf(actions, sig), sig)
        && Deliverable(old(ctx), ActionOf(actions, sig)) && Abs() == Deliver(old(Abs()), sig, ActionOf(actions, sig))
        && Entered(old(Abs()), Abs(), sig, actions[sig]) && UserCode(ctx.ip)
      ensures o.Exits? ==> exists sig: u32 ::
        && 1 <= sig <= SIG_MAX && Meets(Without(old(pending), old(mask)), SigBit(sig))
        && OnlyIgnoredLost(old(pending), pending, actions, sig) && !Ignored(ActionOf(actions, sig), sig)
        && o.code == 128 + (if ActionOf(actions, sig).handler == SIG_DFL then sig else SIG_SEGV)
        && (ActionOf(actions, sig).handler != SIG_DFL ==> !Deliverable(old(ctx), ActionOf(actions, sig)))
        && actions[sig].handler != SIG_IGN && (actions[sig].handler == SIG_DFL ==> sig != SIG_CHLD)
    {
      hide SigBit, Union, Without, Meets, OnlyUnmaskedDropped, OnlyIgnoredLost, Clean, FrameOf, FrameAddr, Deliverable, Put, ActionOf, Ignored, SlotWord, Entered, UserCode;
      ghost var m := Abs();
      var sig := SelectSignal();
      if sig == 0 {
        LostWereIgnored(old(pending), pending, actions);
        return NoSignal;
      }
      var a := ActionOf(actions, sig);
      ActionHere(actions, sig);
      if a.handler == SIG_DFL {
        return Exits(128 + sig % 0x80);
      }
      if !Deliverable(ctx, a) {
        return Exits(128 + SIG_SEGV);
      }
      DeliverFits(ctx, a);
      var addr := FrameAddr(ctx.regs[30]);
      StoreWords(addr / 4, FrameOf(Saved(ctx, mask, top, sig)));
      StoreWords(SlotWord(ctx), [a.restorer, 0]);
      CleanedIsClean(Union(Union(mask, a.mask), SigBit(sig)));
      mask := Without(Union(Union(mask, a.mask), SigBit(sig)), UNCATCHABLE);
      top := addr;
      ctx := ctx.(csp := ctx.csp - 1, regs := ctx.regs[0 := sig][1 := addr][30 := addr], ip := a.handler, irqMasked := Flag(ctx.irqMasked));
      assert Abs() == Deliver(m, sig, a);
      DeliverEnters(m, sig, a);
      o := Delivered;
    }

    /** The system call with which a handler returns. */
    method Sigreturn(a: u32) returns (ok: bool)
      requires Valid()
      modifies this`ctx, this`mask, this`top
      ensures Valid() && (ok <==> ReturnOk(old(Abs()), a))
      ensures ok ==> Abs() == Return(old(Abs()), a)
      ensures ok ==> a == old(top) && UserCode(ctx.ip) && STACK_FLOOR <= ctx.regs[30] <= STACK_TOP
      ensures ok ==> ctx.csp <= CALL_ENTRIES && ctx.dsp <= DATA_ENTRIES && ctx.irqMasked <= 1
      ensures !ok ==> Abs() == old(Abs())
    {
      hide Union, Without, Meets, Clean, MaskOf;
      if !StackRange(a, FRAME_BYTES) || top != a {
        return false;
      }
      var f := mem[a / 4..a / 4 + FRAME_WORDS];
      assert f == FrameAt(Abs().mem, a);
      if f[0] != FRAME_MAGIC || f[1] != FRAME_VERSION || f[2] != FRAME_BYTES
        || !UserCode(f[12]) || f[13..45][30] < STACK_FLOOR || f[13..45][30] > STACK_TOP
        || f[6] > CALL_ENTRIES || f[7] > DATA_ENTRIES
        || !ArchStack(f[8], CALL_BYTES) || !ArchStack(f[9], DATA_BYTES)
        || (f[4] != 0 && !StackRange(f[4], FRAME_BYTES)) {
        return false;
      }
      var c := CtxOf(f);
      ctx := c.(irqMasked := Flag(c.irqMasked));
      CleanedIsClean(MaskOf(f));
      mask := Without(MaskOf(f), UNCATCHABLE);
      top := f[4];
      ok := true;
    }
  }

  lemma DeliverFits(c: Ctx, a: Action)
    requires Deliverable(c, a)
    ensures UserCode(a.handler)
    ensures c.csp > 0 && c.regs[30] >= FRAME_BYTES && FrameAddr(c.regs[30]) / 4 + FRAME_WORDS <= MEM_WORDS
    ensures SlotWord(c) + 2 <= MEM_WORDS
  {
  }

  /** Pending set q comes from p by dropping signals that were not masked. */
  predicate OnlyUnmaskedDropped(p: bv32, q: bv32, mask: bv32) { q & p == q && q & mask == p & mask }

  /** Of the signals pending in p, all are still pending in q but `sig` and ignored ones. */
  ghost predicate OnlyIgnoredLost(p: bv32, q: bv32, actions: seq<Action>, sig: nat)
    requires |actions| == 32
  {
    forall n: u32 | 1 <= n <= SIG_MAX && n != sig && Meets(p, SigBit(n)) && !Meets(q, SigBit(n)) :: Ignored(ActionOf(actions, n), n)
  }

  lemma LostWereIgnored(p: bv32, q: bv32, actions: seq<Action>)
    requires |actions| == 32 && OnlyIgnoredLost(p, q, actions, 0)
    ensures forall n: u32 | 1 <= n <= SIG_MAX && Meets(p, SigBit(n)) && !Meets(q, SigBit(n)) ::
      actions[n].handler == SIG_IGN || (actions[n].handler == SIG_DFL && n == SIG_CHLD)
  {
    hide Meets, SigBit;
  }

  lemma ActionHere(actions: seq<Action>, sig: u32)
    requires |actions| == 32 && sig <= SIG_MAX
    ensures ActionOf(actions, sig) == actions[sig]
    ensures !Ignored(actions[sig], sig) ==> actions[sig].handler != SIG_IGN && (actions[sig].handler == SIG_DFL ==> sig != SIG_CHLD)
  {
  }

  lemma NothingLost(p: bv32, actions: seq<Action>)
    requires |actions| == 32
    ensures OnlyIgnoredLost(p, p, actions, 0)
  {
    hide Meets, SigBit;
  }

  /** Dropping the bit of one signal loses that signal alone. */
  lemma LosesOne(p: bv32, q: bv32, actions: seq<Action>, sig: u32)
    requires |actions| == 32 && 1 <= sig <= SIG_MAX && OnlyIgnoredLost(p, q, actions, 0)
    ensures OnlyIgnoredLost(p, Without(q, SigBit(sig)), actions, sig)
    ensures Ignored(ActionOf(actions, sig), sig) ==> OnlyIgnoredLost(p, Without(q, SigBit(sig)), actions, 0)
  {
    hide Meets, SigBit, Without, Ignored;
    forall n: u32 | 1 <= n <= SIG_MAX && n != sig
      ensures Meets(Without(q, SigBit(sig)), SigBit(n)) <==> Meets(q, SigBit(n))
    {
      SigBitsDisjoint(n, sig);
      OtherBitStays(q, SigBit(sig), SigBit(n));
    }
  }

  lemma OtherBitStays(q: bv32, b: bv32, x: bv32)
    requires x & b == 0
    ensures Meets(Without(q, b), x) <==> Meets(q, x)
  {
    hide Without;
    ApartStays(q, b, x);
  }

  lemma ApartStays(q: bv32, b: bv32, x: bv32)
    requires x & b == 0
    ensures Without(q, b) & x == q & x
  {
  }

  lemma SigBitsDisjoint(n: u32, m: u32)
    requires 1 <= n <= SIG_MAX && 1 <= m <= SIG_MAX && n != m
    ensures SigBit(n) & SigBit(m) == 0
  {
    if n < m {
      ShiftedDisjoint(n - 1, m - 1);
    } else {
      ShiftedDisjoint(m - 1, n - 1);
      assert SigBit(n) & SigBit(m) == SigBit(m) & SigBit(n);
    }
  }

  lemma {:induction false} ShiftedDisjoint(n: nat, m: nat)
    requires n < m
    ensures Shifted(n) & Shifted(m) == 0
  {
    if n == 0 {
      LowBitClear(Shifted(m - 1));
    } else {
      ShiftedDisjoint(n - 1, m - 1);
      DoubledApart(Shifted(n - 1), Shifted(m - 1));
    }
  }

  lemma LowBitClear(x: bv32)
    ensures 1 & (x << 1) == 0
  {
  }

  lemma DoubledApart(a: bv32, b: bv32)
    requires a & b == 0
    ensures (a << 1) & (b << 1) == 0
  {
  }

  lemma NothingDropped(p: bv32, mask: bv32)
    ensures OnlyUnmaskedDropped(p, p, mask)
  {
  }

  lemma NothingMeets()
    ensures forall n: nat :: !Meets(0, SigBit(n))
  {
    forall n: nat
      ensures !Meets(0, SigBit(n))
    {
    }
  }

  lemma BitZero(d: bv32)
    ensures forall n: nat | n < 1 :: !Meets(d, SigBit(n))
  {
    forall n: nat | n < 1
      ensures !Meets(d, SigBit(n))
    {
    }
  }

  lemma NoBitBeyond(d: bv32)
    ensures forall n: nat | n > SIG_MAX :: !Meets(d, SigBit(n))
  {
    forall n: nat | n > SIG_MAX
      ensures !Meets(d, SigBit(n))
    {
    }
  }

  /** Dropping one deliverable signal. */
  lemma DropOne(p: bv32, q: bv32, mask: bv32, b: bv32)
    requires OnlyUnmaskedDropped(p, q, mask) && Meets(Without(q, mask), b) && OneBit(b)
    ensures OnlyUnmaskedDropped(p, Without(q, b), mask) && Without(q, b) < q
    ensures Meets(Without(p, mask), b) && !Meets(Without(q, b), b)
  {
  }

  /** A mask with one bit at most. */
  predicate OneBit(b: bv32) { b & (b - 1) == 0 }

  lemma Dropping(q: bv32, mask: bv32, b: bv32)
    ensures forall n: nat | !Meets(Without(q, mask), SigBit(n)) :: !Meets(Without(Without(q, b), mask), SigBit(n))
  {
    forall n: nat | !Meets(Without(q, mask), SigBit(n))
      ensures !Meets(Without(Without(q, b), mask), SigBit(n))
    {
      MeetsLess(q, mask, b, SigBit(n));
    }
  }

  lemma MeetsLess(q: bv32, mask: bv32, b: bv32, x: bv32)
    requires !Meets(Without(q, mask), x)
    ensures !Meets(Without(Without(q, b), mask), x)
  {
  }

  lemma BlockBits(m: bv32, w: bv32, u: bv32)
    requires !Meets(m, u)
    ensures Without(Union(m, Without(w, u)), u) == Union(m, Without(w, u))
  {
  }

  lemma UnblockBits(m: bv32, w: bv32, u: bv32)
    requires !Meets(m, u)
    ensures Without(Without(m, Without(w, u)), u) == Without(m, w)
  {
    hide Union, Without, Meets;
    UnblockApart(m, w, u);
    StaysApart(m, w, u);
  }

  lemma UnblockApart(m: bv32, w: bv32, u: bv32)
    requires !Meets(m, u)
    ensures Without(m, Without(w, u)) == Without(m, w)
  {
    assert m & !(w & !u) == (m & !w) | (m & u);
  }

  lemma StaysApart(m: bv32, w: bv32, u: bv32)
    requires !Meets(m, u)
    ensures Without(Without(m, w), u) == Without(m, w)
  {
    assert m & !w & !u == (m & !u) & !w;
  }

  lemma SetBits(w: bv32, u: bv32)
    ensures Without(Without(w, u), u) == Without(w, u)
  {
  }

  lemma CleanedIsClean(x: bv32)
    ensures Clean(Without(x, UNCATCHABLE))
  {
  }

  lemma {:induction false} ShiftedIsOneBit(n: nat)
    ensures OneBit(Shifted(n))
  {
    if n > 0 {
      ShiftedIsOneBit(n - 1);
      DoubledIsOneBit(Shifted(n - 1));
    }
  }

  lemma DoubledIsOneBit(b: bv32)
    requires OneBit(b)
    ensures OneBit(b << 1)
  {
  }

  lemma SigBitIsOneBit(sig: u32)
    ensures OneBit(SigBit(sig))
  {
    if 1 <= sig <= SIG_MAX {
      ShiftedIsOneBit(sig - 1);
    }
  }
}
