/** The interrupt frame: DEF_IRQ_HANDLER saves it, arch_sched_setup_stack rebuilds it and
    ARCH_SWITCH_CONTEXT pops it (include/levos/x86.h, arch/x86/sched.c). PUSHAD, POPAD and IRETD
    behave as in Volume 2 of the Intel SDM; all pushes and pops are of 32-bit words. */
module ContextSwitch {

  const MAGIC := 0x13371337

  datatype Regs = Regs(eax: int, ecx: int, edx: int, ebx: int, esp: int, ebp: int, esi: int, edi: int,
                       eip: int, cs: int, eflags: int, cr3: int)

  /** `struct pt_regs`, in memory order. */
  datatype PtRegs = PtRegs(magic: int, cr3: int, edi: int, esi: int, ebp: int, esp: int, ebx: int,
                           edx: int, ecx: int, eax: int, eip: int, cs: int, eflags: int)

  /** Word memory; addresses never written read as 0. */
  type Words = map<int, int>

  function At(m: Words, a: int): int { if a in m then m[a] else 0 }

  /** `m` and `m'` hold the same words outside `[lo, hi)`. */
  ghost predicate SameOutside(m: Words, m': Words, lo: int, hi: int) {
    forall a: int {:trigger At(m', a)} :: !(lo <= a < hi) ==> At(m', a) == At(m, a)
  }

  /** What the kernel ought to remember of an interrupted thread. */
  function Saved(r: Regs): PtRegs {
    PtRegs(MAGIC, r.cr3, r.edi, r.esi, r.ebp, r.esp, r.ebx, r.edx, r.ecx, r.eax, r.eip, r.cs, r.eflags)
  }

  /** The words of a `pt_regs` at `a`. */
  function Struct(m: Words, a: int): PtRegs {
    PtRegs(At(m, a), At(m, a + 4), At(m, a + 8), At(m, a + 12), At(m, a + 16), At(m, a + 20), At(m, a + 24),
           At(m, a + 28), At(m, a + 32), At(m, a + 36), At(m, a + 40), At(m, a + 44), At(m, a + 48))
  }

  class Cpu {
    var regs: Regs
    var mem: Words
    var prePushalEsp: int
    var preIrqEsp: int

    constructor (r: Regs, m: Words)
      ensures regs == r && mem == m
    {
      regs, mem, prePushalEsp, preIrqEsp := r, m, 0, 0;
    }

    method Push(v: int)
      modifies this`regs, this`mem
      ensures regs == old(regs).(esp := old(regs).esp - 4)
      ensures forall a: int {:trigger At(mem, a)} :: At(mem, a) == if a == regs.esp then v else At(old(mem), a)
    {
      regs := regs.(esp := regs.esp - 4);
      mem := mem[regs.esp := v];
    }

    method Pop() returns (v: int)
      modifies this`regs
      ensures v == At(mem, old(regs).esp) && regs == old(regs).(esp := old(regs).esp + 4)
    {
      v := At(mem, regs.esp);
      regs := regs.(esp := regs.esp + 4);
    }

    /** PUSHAD pushes the value esp had before. */
    method Pushal()
      modifies this`regs, this`mem
      ensures regs == old(regs).(esp := old(regs).esp - 32)
      ensures SameOutside(old(mem), mem, regs.esp, regs.esp + 32)
      ensures var s, r := regs.esp, old(regs);
              && At(mem, s) == r.edi && At(mem, s + 4) == r.esi && At(mem, s + 8) == r.ebp && At(mem, s + 12) == r.esp
              && At(mem, s + 16) == r.ebx && At(mem, s + 20) == r.edx && At(mem, s + 24) == r.ecx && At(mem, s + 28) == r.eax
    {
      hide At;
      var esp := regs.esp;
      Push(regs.eax);
      Push(regs.ecx);
      Push(regs.edx);
      Push(regs.ebx);
      Push(esp);
      Push(regs.ebp);
      Push(regs.esi);
      Push(regs.edi);
    }

    /** POPAD discards the saved esp. */
    method Popal()
      modifies this`regs
      ensures var s, m := old(regs).esp, mem;
              regs == old(regs).(edi := At(m, s), esi := At(m, s + 4), ebp := At(m, s + 8), ebx := At(m, s + 16),
                                 edx := At(m, s + 20), ecx := At(m, s + 24), eax := At(m, s + 28), esp := s + 32)
    {
      hide At;
      var v := Pop();
      regs := regs.(edi := v);
      v := Pop();
      regs := regs.(esi := v);
      v := Pop();
      regs := regs.(ebp := v);
      v := Pop();
      v := Pop();
      regs := regs.(ebx := v);
      v := Pop();
      regs := regs.(edx := v);
      v := Pop();
      regs := regs.(ecx := v);
      v := Pop();
      regs := regs.(eax := v);
    }

    /** IRETD to the same privilege level. */
    method Iretl()
      modifies this`regs
      ensures var s, m := old(regs).esp, mem;
              regs == old(regs).(eip := At(m, s), cs := At(m, s + 4), eflags := At(m, s + 8), esp := s + 12)
    {
      var v := Pop();
      regs := regs.(eip := v);
      v := Pop();
      regs := regs.(cs := v);
      v := Pop();
      regs := regs.(eflags := v);
    }

    /** The interrupt itself and DEF_IRQ_HANDLER up to the call of save_pre_irq_regs. `handler` is
        where the interrupt goes. */
    method IrqEntry(handler: int)
      modifies this
      ensures regs.esp == old(regs).esp - 52 && regs.cr3 == old(regs).cr3
      ensures preIrqEsp == regs.esp && prePushalEsp == old(regs).esp - 12
      ensures SameOutside(old(mem), mem, old(regs).esp - 52, old(regs).esp)
      ensures Struct(mem, regs.esp) == Saved(old(regs)).(esp := old(regs).esp - 12)
    {
      hide At;
      Push(regs.eflags);
      Push(regs.cs);
      Push(regs.eip);
      regs := regs.(eip := handler);
      prePushalEsp := regs.esp;
      Pushal();
      regs := regs.(eax := regs.cr3);
      Push(regs.eax);
      Push(MAGIC);
      preIrqEsp := regs.esp;
    }

    /** save_pre_irq_regs: what ends up in `current->r`. The magic check never fails right after entry. */
    method SavePreIrqRegs() returns (r: PtRegs, panic: bool)
      ensures r == Struct(mem, preIrqEsp).(esp := prePushalEsp + 12)
      ensures panic <==> r.magic != MAGIC
    {
      r := Struct(mem, preIrqEsp);
      r := r.(esp := prePushalEsp + 12);
      panic := r.magic != MAGIC;
    }

    /** Entry and save together: every register is remembered as it was, and the interrupted stack
        is untouched from esp upwards. */
    method TakeInterrupt(handler: int) returns (r: PtRegs)
      modifies this
      ensures r == Saved(old(regs)) && regs.esp == old(regs).esp - 52 && regs.cr3 == old(regs).cr3
      ensures SameOutside(old(mem), mem, old(regs).esp - 52, old(regs).esp)
      ensures FrameOf(mem, old(regs))
    {
      hide At, Struct;
      IrqEntry(handler);
      var panic;
      r, panic := SavePreIrqRegs();
      assert !panic;
    }

    /** The end of DEF_IRQ_HANDLER, when the handler returns: drop the magic and cr3, then pop the rest. */
    method IrqExit()
      modifies this`regs
      ensures regs == Returned(mem, old(regs))
    {
      var v := Pop();
      regs := regs.(eax := v);
      v := Pop();
      regs := regs.(eax := v);
      Popal();
      Iretl();
    }

    /** arch_sched_setup_stack: rebuild the frame of a thread on its own stack. */
    method SetupStack(r: PtRegs) returns (r': PtRegs)
      modifies this`mem
      ensures r' == r.(esp := r.esp - 44) && mem == Rebuilt(old(mem), r)
    {
      var s := r.esp;
      s := s - 4;
      mem := mem[s := r.eflags];
      s := s - 4;
      mem := mem[s := r.cs];
      s := s - 4;
      mem := mem[s := r.eip];
      var tmp := s;
      s := s - 4;
      mem := mem[s := r.eax];
      s := s - 4;
      mem := mem[s := r.ecx];
      s := s - 4;
      mem := mem[s := r.edx];
      s := s - 4;
      mem := mem[s := r.ebx];
      s := s - 4;
      mem := mem[s := tmp];
      s := s - 4;
      mem := mem[s := r.ebp];
      s := s - 4;
      mem := mem[s := r.esi];
      s := s - 4;
      mem := mem[s := r.edi];
      r' := r.(esp := s);
    }

    /** ARCH_SWITCH_CONTEXT. */
    method SwitchContext(r: PtRegs)
      modifies this`regs
      ensures regs == Popped(mem, r)
    {
      regs := regs.(esp := r.esp);
      regs := regs.(cr3 := r.cr3);
      Popal();
      Iretl();
    }

    /** Both together, as sched_schedule ends: the thread goes on exactly where `r` left it. */
    method Resume(r: PtRegs) returns (r': PtRegs)
      modifies this`regs, this`mem
      ensures regs == Context(r) && r' == r.(esp := r.esp - 44)
      ensures mem == Rebuilt(old(mem), r) && SameOutside(old(mem), mem, r.esp - 44, r.esp)
    {
      hide Rebuilt, Popped, Context, SameOutside;
      SwitchRestores(mem, r);
      r' := SetupStack(r);
      SwitchContext(r');
    }
  }

  /** The interrupt frame of a thread interrupted with registers `r` is in place. */
  ghost predicate FrameOf(m: Words, r: Regs) {
    Struct(m, r.esp - 52) == Saved(r).(esp := r.esp - 12)
  }

  /** Registers after the end of DEF_IRQ_HANDLER, from registers `k` of the returning handler. */
  function Returned(m: Words, k: Regs): Regs {
    var f := Struct(m, k.esp);
    Regs(f.eax, f.ecx, f.edx, f.ebx, k.esp + 52, f.ebp, f.esi, f.edi, f.eip, f.cs, f.eflags, k.cr3)
  }

  /** Memory after arch_sched_setup_stack for a thread with registers `r`. */
  function Rebuilt(m: Words, r: PtRegs): Words {
    var s := r.esp;
    m[s - 4 := r.eflags][s - 8 := r.cs][s - 12 := r.eip][s - 16 := r.eax][s - 20 := r.ecx][s - 24 := r.edx][s - 28 := r.ebx]
     [s - 32 := s - 12][s - 36 := r.ebp][s - 40 := r.esi][s - 44 := r.edi]
  }

  /** Registers after ARCH_SWITCH_CONTEXT with saved registers `r`. */
  function Popped(m: Words, r: PtRegs): Regs {
    var s := r.esp;
    Regs(At(m, s + 28), At(m, s + 24), At(m, s + 20), At(m, s + 16), s + 44, At(m, s + 8), At(m, s + 4), At(m, s),
         At(m, s + 32), At(m, s + 36), At(m, s + 40), r.cr3)
  }

  /** The registers a `pt_regs` stands for. */
  function Context(r: PtRegs): Regs {
    Regs(r.eax, r.ecx, r.edx, r.ebx, r.esp, r.ebp, r.esi, r.edi, r.eip, r.cs, r.eflags, r.cr3)
  }

  // ---------------------------------------------------------------- one switch

  /** A handler that returns, its frame intact and cr3 untouched, resumes the thread exactly. */
  lemma ReturnRestores(m: Words, r: Regs, k: Regs)
    requires FrameOf(m, r) && k.esp == r.esp - 52 && k.cr3 == r.cr3
    ensures Returned(m, k) == r
  {
  }

  /** So does a switch, in whatever memory: the rebuilt frame and its pops give back every register,
      and only the 44 bytes below the thread's esp are written. */
  lemma SwitchRestores(m: Words, r: PtRegs)
    ensures var m' := Rebuilt(m, r);
            Popped(m', r.(esp := r.esp - 44)) == Context(r) && SameOutside(m, m', r.esp - 44, r.esp)
    ensures forall x: Regs :: Context(Saved(x)) == x
  {
  }

  /** The register file sched_mk_process gives a new thread: arch_sched_mk_initial_regs, the entry point,
      and the top of its stack page. */
  function InitialRegs(entry: int, page: int, cr3: int): PtRegs {
    PtRegs(0, cr3, 0, 0, page + 4096, page + 4096, 0, 0, 0, 0, entry, 0x8, 0x202)
  }

  /** The first switch to a new thread starts it at its entry point with interrupts on and an empty stack,
      and writes nothing outside its stack page. */
  lemma FirstSwitch(m: Words, entry: int, page: int, cr3: int)
    ensures var r := InitialRegs(entry, page, cr3);
            var m' := Rebuilt(m, r);
            && Popped(m', r.(esp := r.esp - 44)) == Regs(0, 0, 0, 0, page + 4096, page + 4096, 0, 0, entry, 0x8, 0x202, cr3)
            && SameOutside(m, m', page, page + 4096)
  {
    hide Rebuilt, Popped;
    SwitchRestores(m, InitialRegs(entry, page, cr3));
  }

  // ---------------------------------------------------------------- many switches

  datatype Stack = Stack(lo: int, hi: int)

  /** The machine between interrupts: `cur` runs, the other threads rest in `saved`. */
  datatype World = World(regs: Regs, mem: Words, cur: nat, saved: seq<PtRegs>)

  /** `Work`: the current thread computes. `Return(k, m)`: an interrupt is taken, the handler leaves memory
      as `m` and comes back to the end of DEF_IRQ_HANDLER with registers `k`. `Switch(u, m)`: an interrupt
      is taken, the handler leaves memory as `m`, and thread `u` is resumed. */
  datatype Event = Work | Return(k: Regs, m: Words) | Switch(u: nat, m: Words)

  ghost predicate Disjoint(stacks: seq<Stack>) {
    forall i, j :: 0 <= i < j < |stacks| ==> stacks[i].hi <= stacks[j].lo || stacks[j].hi <= stacks[i].lo
  }

  /** There is room for a frame below `esp`. */
  ghost predicate Room(s: Stack, esp: int) { s.lo + 52 <= esp <= s.hi }

  ghost predicate WellFormed(stacks: seq<Stack>, w: World) {
    && Disjoint(stacks) && |w.saved| == |stacks| && w.cur < |stacks| && Room(stacks[w.cur], w.regs.esp)
    && forall t :: 0 <= t < |stacks| && t != w.cur ==> Room(stacks[t], w.saved[t].esp)
  }

  /** The stack of thread `t` is the same from `from` up. */
  ghost predicate StackKept(stacks: seq<Stack>, t: nat, from: int, m: Words, m': Words)
    requires t < |stacks|
  {
    forall a: int {:trigger At(m', a)} :: from <= a < stacks[t].hi ==> At(m', a) == At(m, a)
  }

  /** A handler leaves alone the stacks of all threads, that of the current one from esp up. */
  ghost predicate HandlerKeeps(stacks: seq<Stack>, w: World, m: Words) {
    forall t :: 0 <= t < |stacks| ==>
      StackKept(stacks, t, if t == w.cur then w.regs.esp else stacks[t].lo, w.mem, m)
  }

  ghost predicate Step(stacks: seq<Stack>, w: World, e: Event, w': World) {
    && WellFormed(stacks, w)
    && match e
       case Work =>
         && w'.cur == w.cur && w'.saved == w.saved && Room(stacks[w.cur], w'.regs.esp)
         && forall t :: 0 <= t < |stacks| && t != w.cur ==> StackKept(stacks, t, stacks[t].lo, w.mem, w'.mem)
       case Return(k, m) =>
         && HandlerKeeps(stacks, w, m) && FrameOf(m, w.regs) && k.esp == w.regs.esp - 52 && k.cr3 == w.regs.cr3
         && w'.mem == m && w'.cur == w.cur && w'.saved == w.saved[w.cur := Saved(w.regs)]
         && w'.regs == Returned(m, k)
       case Switch(u, m) =>
         && u < |stacks| && HandlerKeeps(stacks, w, m)
         && var saved := w.saved[w.cur := Saved(w.regs)];
            && w'.mem == Rebuilt(m, saved[u])
            && w'.saved == saved[u := saved[u].(esp := saved[u].esp - 44)]
            && w'.regs == Popped(w'.mem, w'.saved[u]) && w'.cur == u
  }

  lemma StepKeepsRest(stacks: seq<Stack>, w: World, e: Event, w': World, t: nat)
    requires Step(stacks, w, e, w') && t < |stacks| && t != w.cur && !(e.Switch? && e.u == t)
    ensures w'.cur != t && w'.saved[t] == w.saved[t]
    ensures StackKept(stacks, t, w.saved[t].esp, w.mem, w'.mem)
  {
    hide Rebuilt, Popped, At;
    if e.Switch? {
      var saved := w.saved[w.cur := Saved(w.regs)];
      SwitchRestores(e.m, saved[e.u]);
    }
  }

  lemma StepSuspends(stacks: seq<Stack>, w: World, e: Event, w': World)
    requires Step(stacks, w, e, w') && e.Switch? && e.u != w.cur
    ensures w'.cur != w.cur && w'.saved[w.cur] == Saved(w.regs)
    ensures StackKept(stacks, w.cur, w.regs.esp, w.mem, w'.mem)
  {
    hide Rebuilt, Popped, At;
    var saved := w.saved[w.cur := Saved(w.regs)];
    SwitchRestores(e.m, saved[e.u]);
  }

  lemma StepResumes(stacks: seq<Stack>, w: World, e: Event, w': World)
    requires Step(stacks, w, e, w') && e.Switch?
    ensures var r := if e.u == w.cur then Saved(w.regs) else w.saved[e.u];
            w'.cur == e.u && w'.regs == Context(r) && StackKept(stacks, e.u, r.esp, w.mem, w'.mem)
  {
    hide Rebuilt, Popped, At;
    var saved := w.saved[w.cur := Saved(w.regs)];
    SwitchRestores(e.m, saved[e.u]);
  }

  lemma StepWellFormed(stacks: seq<Stack>, w: World, e: Event, w': World)
    requires Step(stacks, w, e, w')
    ensures WellFormed(stacks, w')
  {
    hide Rebuilt, Popped, At;
    if e.Switch? {
      StepResumes(stacks, w, e, w');
    } else if e.Return? {
      ReturnRestores(e.m, w.regs, e.k);
    }
  }

  /** An interrupt that returns changes no register of the interrupted thread, nor its stack. */
  lemma StepReturns(stacks: seq<Stack>, w: World, e: Event, w': World)
    requires Step(stacks, w, e, w') && e.Return?
    ensures w'.regs == w.regs && w'.cur == w.cur && StackKept(stacks, w.cur, w.regs.esp, w.mem, w'.mem)
  {
    hide At, Struct, Saved;
    ReturnRestores(e.m, w.regs, e.k);
  }

  /** The machine makes these steps. Here is a switch; `m` is what the handler makes of memory. */
  method SwitchStep(c: Cpu, ghost stacks: seq<Stack>, cur: nat, saved: seq<PtRegs>, handler: int, u: nat, m: Words)
    returns (saved': seq<PtRegs>)
    requires WellFormed(stacks, World(c.regs, c.mem, cur, saved)) && u < |stacks|
    requires HandlerKeeps(stacks, World(c.regs, c.mem, cur, saved), m)
    modifies c
    ensures Step(stacks, old(World(c.regs, c.mem, cur, saved)), Switch(u, m), World(c.regs, c.mem, u, saved'))
  {
    hide At, Rebuilt, Popped, HandlerKeeps, FrameOf, SameOutside, StackKept, Disjoint, Room, Saved, Context;
    var r := c.TakeInterrupt(handler);
    var now := saved[cur := r];
    c.mem := m;
    SwitchRestores(m, now[u]);
    var r' := c.Resume(now[u]);
    saved' := now[u := r'];
  }

  /** And an interrupt that returns, from a handler that leaves registers `k`. */
  method ReturnStep(c: Cpu, ghost stacks: seq<Stack>, cur: nat, saved: seq<PtRegs>, handler: int, k: Regs, m: Words)
    returns (saved': seq<PtRegs>)
    requires WellFormed(stacks, World(c.regs, c.mem, cur, saved))
    requires HandlerKeeps(stacks, World(c.regs, c.mem, cur, saved), m) && FrameOf(m, c.regs)
    requires k.esp == c.regs.esp - 52 && k.cr3 == c.regs.cr3
    modifies c
    ensures Step(stacks, old(World(c.regs, c.mem, cur, saved)), Return(k, m), World(c.regs, c.mem, cur, saved'))
    ensures c.regs == old(c.regs)
  {
    hide At, Returned, HandlerKeeps, FrameOf, SameOutside, StackKept, Disjoint, Room, Saved;
    ghost var before := c.regs;
    var r := c.TakeInterrupt(handler);
    saved' := saved[cur := r];
    c.mem := m;
    c.regs := k;
    ReturnRestores(m, before, k);
    c.IrqExit();
  }

  ghost predicate IsRun(stacks: seq<Stack>, ws: seq<World>, es: seq<Event>) {
    |ws| == |es| + 1 && forall i :: 0 <= i < |es| ==> Step(stacks, ws[i], es[i], ws[i + 1])
  }

  /** A thread switched away from at step `i` and not resumed before step `j` rests undisturbed. */
  lemma {:induction false} Rests(stacks: seq<Stack>, ws: seq<World>, es: seq<Event>, i: nat, j: nat, t: nat)
    requires IsRun(stacks, ws, es) && i < j < |ws| && t < |stacks|
    requires ws[i].cur == t && es[i].Switch? && es[i].u != t
    requires forall k :: i < k < j ==> !(es[k].Switch? && es[k].u == t)
    ensures |ws[j].saved| == |stacks| && ws[j].cur != t && ws[j].saved[t] == Saved(ws[i].regs)
    ensures StackKept(stacks, t, ws[i].regs.esp, ws[i].mem, ws[j].mem)
    decreases j - i
  {
    hide Saved;
    var k := j - 1;
    assert Step(stacks, ws[k], es[k], ws[j]);
    StepWellFormed(stacks, ws[k], es[k], ws[j]);
    if k == i {
      StepSuspends(stacks, ws[i], es[i], ws[j]);
    } else {
      Rests(stacks, ws, es, i, k, t);
      StepKeepsRest(stacks, ws[k], es[k], ws[j], t);
      SavedEsp(ws[i].regs);
    }
  }

  lemma SavedEsp(r: Regs)
    ensures Saved(r).esp == r.esp && Context(Saved(r)) == r
  {
  }

  /** The context round trip: over every run, a thread resumes with exactly the registers and the
      stack it was interrupted with, however many other threads ran in between. */
  lemma RoundTrip(stacks: seq<Stack>, ws: seq<World>, es: seq<Event>, i: nat, j: nat, t: nat)
    requires IsRun(stacks, ws, es) && i <= j < |es| && t < |stacks|
    requires ws[i].cur == t && es[i].Switch? && (i < j ==> es[i].u != t) && es[j].Switch? && es[j].u == t
    requires forall k :: i < k < j ==> !(es[k].Switch? && es[k].u == t)
    ensures ws[j + 1].cur == t && ws[j + 1].regs == ws[i].regs
    ensures StackKept(stacks, t, ws[i].regs.esp, ws[i].mem, ws[j + 1].mem)
  {
    hide Saved, Context;
    SavedEsp(ws[i].regs);
    if i < j {
      Rests(stacks, ws, es, i, j, t);
    }
    StepResumes(stacks, ws[j], es[j], ws[j + 1]);
  }
}
