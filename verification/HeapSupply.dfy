/** Why the page supplier may be relied on as the heap does: mm_alloc_pages gives it fresh runs, malloc after
    malloc. */
module HeapSupply {
  import opened Memory
  import opened HeapLayout
  import opened HeapSearch
  import opened HeapFrames
  import opened HeapOutcome
  import opened HeapFree
  import opened HeapContents
  import opened HeapWrites
  import Sets = FrameModel
  import Frames
  import Paging
  import PagingClass
  import HeapRelease
  import HeapClass
  import HeapRuns
  import AddressSpaces

  /** Every page of every major is in use. */
  ghost predicate MajorsHeld(l: Layout, held: set<nat>) {
    forall j, k: nat :: 0 <= j < |l| && l[j].addr <= k * PAGE < l[j].End() ==> k in held
  }

  /** The run found for a request is a fresh run for every layout whose majors are in use. */
  lemma FoundIsFresh(s: Sets.State, held: set<nat>, l: Layout, limit: int, n: nat)
    requires Sets.Holds(s, held) && 0 in s.used && MajorsHeld(l, held) && ValidLayout(l, limit)
    requires 0 < n && Sets.Found(s, n) < s.nframes && (Sets.Found(s, n) + n) * PAGE <= limit
    ensures FreshRun(l, limit, Sets.Found(s, n) * PAGE, n)
  {
    hide Sets.Holds, Sets.LowestRun;
    var r := Sets.Found(s, n);
    assert Sets.ClearRun(s.used, r, n) && r > 0;
    Sets.RunIsNew(s, held, n);
    forall j | 0 <= j < |l| ensures Apart(l[j], Region(r * PAGE, n, [])) {
      ApartFrom(s, held, l, limit, j, n);
    }
  }

  lemma ApartFrom(s: Sets.State, held: set<nat>, l: Layout, limit: int, j: nat, n: nat)
    requires MajorsHeld(l, held) && ValidLayout(l, limit) && j < |l| && 0 < n && Sets.Found(s, n) < s.nframes
    requires Sets.Handed(s, Sets.AllocPages(n)) !! held
    ensures Apart(l[j], Region(Sets.Found(s, n) * PAGE, n, []))
  {
    hide Sets.Found;
    var r, a := Sets.Found(s, n), l[j].addr / PAGE;
    assert a * PAGE == l[j].addr;
    var k := if r < a then a else r;
    assert Sets.InRun(k, r, n) ==> k in Sets.Handed(s, Sets.AllocPages(n));
    assert l[j].addr <= k * PAGE < l[j].End() ==> k in held;
  }

  /** So the condition malloc puts on the supplier's answer is met by the address mm_alloc_pages returns,
      as long as no frame was freed since the majors were obtained. */
  lemma SupplierMeets(s: Sets.State, held: set<nat>, l: Layout, limit: int, start: nat, size: nat)
    requires Sets.Holds(s, held) && 0 in s.used && MajorsHeld(l, held) && ValidLayout(l, limit) && start <= |l|
    requires var n := PagesFor(size);
             Sets.Found(s, n) < s.nframes && (Sets.Found(s, n) + n) * PAGE <= limit
    ensures SupplierReady(l, limit, start, size, Sets.Found(s, PagesFor(size)) * PAGE)
  {
    FoundIsFresh(s, held, l, limit, PagesFor(size));
  }

  // ---------------------------------------------------------------- runs of heap and supplier

  /** The address mm_alloc_pages returns when its search fails. */
  const FAILED := 0xFFFF_F000

  /** What liballoc_alloc returns. */
  ghost function Answer(s: Sets.State, n: nat): nat {
    if Sets.Found(s, n) == s.nframes then FAILED else Sets.Found(s, n) * PAGE
  }

  /** A failed search is not NULL: malloc takes the address for a run, but no memory is there. */
  lemma FailureIsNoRun(l: Layout, limit: int, size: nat)
    requires limit <= WORD_LIMIT
    ensures FAILED != 0 && FAILED % PAGE == 0 && !FreshRun(l, limit, FAILED, PagesFor(size))
  {
  }

  ghost predicate Asks(l: Layout, start: nat, req: nat)
    requires start <= |l|
  {
    Target(l, req + ALIGNMENT + ALIGN_INFO + HEADER, start) == |l|
  }

  datatype Pair = Pair(l: Layout, s: Sets.State)

  /** `Stopped`: mm_alloc_pages panicked, or the header of a new major was written where no page is. */
  datatype Outcome = Running(pair: Pair) | Stopped

  /** `gone` are the frames whose bits a free clears. */
  datatype Event = Malloc(req: nat, start: nat) | Free(p: int, gone: set<nat>)

  ghost predicate Enabled(a: Pair, e: Event) {
    match e
    case Malloc(req, start) =>
      && start <= |a.l|
      && (Asks(a.l, start, req) ==> Sets.Enabled(a.s, Sets.AllocPages(PagesFor(req + ALIGNMENT + ALIGN_INFO))))
    case Free(p, gone) =>
      Live(a.l, p) && (!Empties(a.l, p) ==> gone == {})
  }

  ghost function Step(a: Pair, e: Event): Outcome
    requires Enabled(a, e)
  {
    match e
    case Malloc(req, start) =>
      var size := req + ALIGNMENT + ALIGN_INFO;
      var n := PagesFor(size);
      if !Asks(a.l, start, req) then Running(Pair(Malloced(a.l, start, size, req, 0), a.s))
      else if Sets.Pages(a.s, n).Panic? || Sets.Found(a.s, n) == a.s.nframes then Stopped
      else Running(Pair(Malloced(a.l, start, size, req, Answer(a.s, n)), Sets.Pages(a.s, n).state))
    case Free(p, gone) =>
      Running(Pair(Freed(a.l, p), a.s.(used := a.s.used - gone)))
  }

  /** The pages in use after a step. */
  ghost function HeldAfter(a: Pair, held: set<nat>, e: Event): set<nat>
    requires Enabled(a, e)
  {
    match e
    case Malloc(req, start) =>
      if Asks(a.l, start, req)
      then held + Sets.Handed(a.s, Sets.AllocPages(PagesFor(req + ALIGNMENT + ALIGN_INFO)))
      else held
    case Free(_, _) => held
  }

  /** The frames of the pages in use keep their bits. */
  ghost predicate Spares(a: Pair, held: set<nat>, e: Event) {
    e.Free? ==> Sets.Holds(a.s.(used := a.s.used - e.gone), held)
  }

  /** Frame 0 and every page of every major are in use, and a run of frames that is clear holds none of them. */
  ghost predicate Fed(a: Pair, held: set<nat>, limit: int) {
    && 0 in held && Sets.Holds(a.s, held) && MajorsHeld(a.l, held)
    && ValidLayout(a.l, limit) && NoneEmpty(a.l) && a.s.nframes > 0
  }

  /** Malloc gets what it relies on, whether it asks for pages or not. */
  ghost predicate Supplied(a: Pair, e: Event, limit: int)
    requires Enabled(a, e)
  {
    e.Malloc? && Step(a, e).Running? ==>
      var size := e.req + ALIGNMENT + ALIGN_INFO;
      SupplierReady(a.l, limit, e.start, size, Answer(a.s, PagesFor(size)))
  }

  lemma HeldPlace(l: Layout, held: set<nat>, j: nat, k: nat, size: int, req: int)
    requires MajorsHeld(l, held) && j < |l| && k <= |l[j].allocs|
    ensures MajorsHeld(Place(l, j, k, size, req), held)
    ensures NoneEmpty(l) ==> NoneEmpty(Place(l, j, k, size, req))
  {
    var l' := Place(l, j, k, size, req);
    assert forall i :: 0 <= i < |l| ==> l'[i].addr == l[i].addr && l'[i].End() == l[i].End();
  }

  lemma HeldAppend(l: Layout, held: set<nat>, s: Sets.State, n: nat, r: Region)
    requires MajorsHeld(l, held) && Sets.Found(s, n) < s.nframes
    requires r.addr == Sets.Found(s, n) * PAGE && r.pages == n
    ensures MajorsHeld(l + [r], held + Sets.Handed(s, Sets.AllocPages(n)))
  {
    hide Sets.LowestRun, Sets.Found;
    var l', held' := l + [r], held + Sets.Handed(s, Sets.AllocPages(n));
    forall j, k: nat | 0 <= j < |l'| && l'[j].addr <= k * PAGE < l'[j].End() ensures k in held' {
      if j < |l| {
        assert l'[j] == l[j];
      } else {
        assert Sets.InRun(k, Sets.Found(s, n), n);
      }
    }
  }

  lemma HeldFree(l: Layout, held: set<nat>, p: int)
    requires MajorsHeld(l, held) && Live(l, p)
    ensures MajorsHeld(Freed(l, p), held)
  {
    var (j, k) := Locate(l, p);
    var l' := Freed(l, p);
    forall i, x: nat | 0 <= i < |l'| && l'[i].addr <= x * PAGE < l'[i].End() ensures x in held {
      var b := if |l[j].allocs| == 1 && i >= j then i + 1 else i;
      assert l'[i].addr == l[b].addr && l'[i].End() == l[b].End();
    }
  }

  /** One step keeps everything, and its malloc was supplied. */
  lemma StepFed(a: Pair, held: set<nat>, e: Event, limit: int)
    requires Fed(a, held, limit) && Enabled(a, e) && Spares(a, held, e) && Sets.TOP * PAGE <= limit
    ensures Supplied(a, e, limit)
    ensures Step(a, e).Running? ==> Fed(Step(a, e).pair, HeldAfter(a, held, e), limit)
  {
    hide Sets.Holds, Sets.Handed, Sets.Pages, Sets.Found, MajorsHeld, ValidLayout, NoneEmpty, Malloced, PagesFor, Target,
         FreshRun, Freed;
    match e
    case Malloc(req, start) =>
      if Step(a, e).Running? {
        MallocFed(a, held, req, start, limit);
      }
    case Free(p, gone) =>
      HeldFree(a.l, held, p);
      HeapRelease.FreedValid(a.l, limit, p);
  }

  lemma ZeroUsed(s: Sets.State, held: set<nat>)
    requires Sets.Holds(s, held) && 0 in held && s.nframes > 0
    ensures 0 in s.used
  {
  }

  lemma PagesInside(s: Sets.State, n: nat)
    requires Sets.Pages(s, n).Running? && Sets.Found(s, n) < s.nframes
    ensures Sets.Found(s, n) + n <= Sets.TOP && Sets.Pages(s, n).state.nframes == s.nframes
  {
    hide Sets.LowestRun;
  }

  lemma PagesHold(s: Sets.State, held: set<nat>, n: nat)
    requires Sets.Holds(s, held) && Sets.Pages(s, n).Running?
    ensures Sets.Holds(Sets.Pages(s, n).state, held + Sets.Handed(s, Sets.AllocPages(n)))
  {
    hide Sets.Holds, Sets.Handed, Sets.Pages;
    Sets.StepHolds(s, held, Sets.AllocPages(n));
  }

  lemma MallocedNoneEmpty(l: Layout, start: nat, size: nat, req: nat, run: int)
    requires start <= |l| && NoneEmpty(l)
    ensures NoneEmpty(Malloced(l, start, size, req, run))
  {
    hide FitRegionFrom, PagesFor, FitFrom;
  }

  lemma NewHeld(l: Layout, held: set<nat>, s: Sets.State, start: nat, size: nat, req: nat)
    requires start <= |l| && MajorsHeld(l, held) && Target(l, size + HEADER, start) == |l|
    requires var n := PagesFor(size); Sets.Found(s, n) < s.nframes
    ensures var n := PagesFor(size);
            MajorsHeld(Malloced(l, start, size, req, Sets.Found(s, n) * PAGE), held + Sets.Handed(s, Sets.AllocPages(n)))
  {
    hide Target, PagesFor, Place, Sets.Handed, Sets.Found, MajorsHeld;
    var n := PagesFor(size);
    var run := Sets.Found(s, n) * PAGE;
    var held' := held + Sets.Handed(s, Sets.AllocPages(n));
    var r := NewRegion(run, size);
    HeldAppend(l, held, s, n, r);
    HeldPlace(l + [r], held', |l|, 0, size, req);
    HeldMore(l, held, held');
  }

  lemma HeldMore(l: Layout, held: set<nat>, held': set<nat>)
    requires MajorsHeld(l, held) && held <= held'
    ensures MajorsHeld(l, held')
  {
  }

  lemma MallocFed(a: Pair, held: set<nat>, req: nat, start: nat, limit: int)
    requires Fed(a, held, limit) && Enabled(a, Malloc(req, start)) && Sets.TOP * PAGE <= limit
    requires Step(a, Malloc(req, start)).Running?
    ensures Supplied(a, Malloc(req, start), limit)
    ensures Fed(Step(a, Malloc(req, start)).pair, HeldAfter(a, held, Malloc(req, start)), limit)
  {
    hide Sets.Holds, Sets.Handed, Sets.Pages, Sets.Found, MajorsHeld, ValidLayout, NoneEmpty, Place, PagesFor, Target,
         FreshRun, Fit, Malloced;
    var size := req + ALIGNMENT + ALIGN_INFO;
    var n := PagesFor(size);
    if Asks(a.l, start, req) {
      var run := Answer(a.s, n);
      ZeroUsed(a.s, held);
      PagesInside(a.s, n);
      FoundIsFresh(a.s, held, a.l, limit, n);
      PagesHold(a.s, held, n);
      NewHeld(a.l, held, a.s, start, size, req);
      HeapRuns.MallocedValid(a.l, limit, start, req, run);
      MallocedNoneEmpty(a.l, start, size, req, run);
    } else {
      MallocedThere(a.l, start, size, req);
      var j := Target(a.l, size + HEADER, start);
      HeldPlace(a.l, held, j, Fit(a.l[j], size + HEADER), size, req);
      HeapRuns.MallocedValid(a.l, limit, start, req, 0);
    }
  }

  lemma MallocedThere(l: Layout, start: nat, size: nat, req: nat)
    requires start <= |l| && Target(l, size + HEADER, start) != |l|
    ensures var j := Target(l, size + HEADER, start);
            j < |l| && Fit(l[j], size + HEADER) <= |l[j].allocs|
            && Malloced(l, start, size, req, 0) == Place(l, j, Fit(l[j], size + HEADER), size, req)
  {
  }

  ghost predicate Legal(a: Pair, held: set<nat>, es: seq<Event>)
    decreases |es|
  {
    es == [] ||
    (&& Enabled(a, es[0]) && Spares(a, held, es[0])
     && (Step(a, es[0]).Running? ==> Legal(Step(a, es[0]).pair, HeldAfter(a, held, es[0]), es[1..])))
  }

  /** Every malloc of the run gets what it relies on. */
  ghost predicate AllSupplied(a: Pair, held: set<nat>, es: seq<Event>, limit: int)
    requires Legal(a, held, es)
    decreases |es|
  {
    es == [] ||
    (&& Supplied(a, es[0], limit)
     && (Step(a, es[0]).Running? ==> AllSupplied(Step(a, es[0]).pair, HeldAfter(a, held, es[0]), es[1..], limit)))
  }

  /** Over every run of mallocs and frees on top of mm_alloc_pages, whose frees clear no bit of a page in use,
      malloc gets what it relies on each time. */
  lemma {:induction false} RunSupplied(a: Pair, held: set<nat>, es: seq<Event>, limit: int)
    requires Fed(a, held, limit) && Legal(a, held, es) && Sets.TOP * PAGE <= limit
    ensures AllSupplied(a, held, es, limit)
    decreases |es|
  {
    hide Fed, Enabled, Step, Spares, HeldAfter, Supplied;
    if es != [] {
      StepFed(a, held, es[0], limit);
      if Step(a, es[0]).Running? {
        RunSupplied(Step(a, es[0]).pair, HeldAfter(a, held, es[0]), es[1..], limit);
      }
    }
  }

  /** At boot nothing is in the heap, so frame 0 alone is enough, and the first malloc asks for pages. */
  lemma BootFed(s: Sets.State, limit: int, req: nat)
    requires Sets.Good(s) && s.nframes > 0
    ensures Fed(Pair([], s), {0}, limit) && Asks([], 0, req)
    ensures Sets.Enabled(s, Sets.AllocPages(PagesFor(req + ALIGNMENT + ALIGN_INFO))) ==>
              Enabled(Pair([], s), Malloc(req, 0))
  {
  }

  // ---------------------------------------------------------------- heap and page tables together

  /** malloc with liballoc_alloc underneath. `asks`: whether the scan will find no room. `stopped`: the kernel
      panicked in mm_alloc_pages, or wrote a header where its search failed. */
  method MallocOn(h: HeapClass.Heap, sp: AddressSpaces.Spaces, req: nat, asks: bool, ghost held: set<nat>)
    returns (p: int, stopped: bool, ghost held': set<nat>)
    requires h.Valid() && sp.Valid() && RequestFits(req) && Sets.TOP * PAGE <= |h.mem|
    requires Fed(Pair(h.layout, sp.mmu.View()), held, |h.mem|)
    requires Enabled(Pair(h.layout, sp.mmu.View()), Malloc(req, h.MallocStart(req)))
    requires asks <==> Asks(h.layout, h.MallocStart(req), req)
    modifies h, sp.mmu`plp, sp.mmu`home, sp.mmu.kernelDir.tables, sp.mmu.kernelDir.phyTables, sp.mmu.bitmap.frames,
             sp.mmu.kernelDir.tables[..]
    ensures var step := old(Step(Pair(h.layout, sp.mmu.View()), Malloc(req, h.MallocStart(req))));
            && (stopped <==> step.Stopped?)
            && (!stopped ==> h.Valid() && sp.Valid() && step == Running(Pair(h.layout, sp.mmu.View())))
    ensures !stopped ==>
              && Fed(Pair(h.layout, sp.mmu.View()), held', |h.mem|) && held <= held'
              && p != 0 && p in h.Sees() && |h.Sees()[p]| == req && p !in old(h.Sees())
              && h.Sees() == old(h.Sees())[p := h.Sees()[p]]
  {
    hide Fed, Enabled, Step, HeldAfter, HeapClass.Heap.Valid, AddressSpaces.Spaces.Valid, Target, PagesFor, Malloced, Sets.Found,
         Sets.Pages, SupplierReady, AddressSpaces.Spaces.Physical, Sets.ClearRun, View;
    var run, n := 0, PagesFor(req + ALIGNMENT + ALIGN_INFO);
    SpacesFacts(sp, n);
    ghost var a, e := Pair(h.layout, sp.mmu.View()), Malloc(req, h.MallocStart(req));
    held' := HeldAfter(a, held, e);
    if Step(a, e).Running? {
      StepReady(a, held, req, h.MallocStart(req), |h.mem|);
    }
    if !asks {
      StepStays(a, req, h.MallocStart(req));
    } else {
      StepAsks(a, req, h.MallocStart(req), n);
      var ok;
      ok, run := sp.AllocPages(n);
      if !ok || run == FAILED {
        return 0, true, held;
      }
    }
    stopped := false;
    p := Serve(h, req, run);
  }

  lemma NothingSeen(h: HeapClass.Heap)
    requires h.Valid() && h.layout == []
    ensures h.Sees() == map[]
  {
  }

  lemma SystemFacts(sp: AddressSpaces.Spaces)
    requires sp.Valid()
    ensures sp.mmu.Valid() && Sets.Good(sp.mmu.View()) && sp.mmu.View().nframes == sp.mmu.bitmap.nframes > 0
  {
    hide Sets.Good;
  }

  lemma SpacesFacts(sp: AddressSpaces.Spaces, n: nat)
    requires sp.Valid()
    ensures sp.mmu.Valid() && sp.mmu.View().nframes == sp.mmu.bitmap.nframes
    ensures Sets.Found(sp.mmu.View(), n) * PAGE < FAILED
  {
    hide Sets.LowestRun, Sets.Good;
    sp.mmu.SearchBound();
  }

  lemma StepAsks(a: Pair, req: nat, start: nat, n: nat)
    requires start <= |a.l| && n == PagesFor(req + ALIGNMENT + ALIGN_INFO)
    requires Enabled(a, Malloc(req, start)) && Asks(a.l, start, req)
    ensures Sets.Enabled(a.s, Sets.AllocPages(n))
    ensures Step(a, Malloc(req, start)) ==
            if Sets.Pages(a.s, n).Panic? || Sets.Found(a.s, n) == a.s.nframes then Stopped
            else Running(Pair(Malloced(a.l, start, req + ALIGNMENT + ALIGN_INFO, req, Sets.Found(a.s, n) * PAGE),
                              Sets.Pages(a.s, n).state))
  {
    hide Target, PagesFor, Malloced, Sets.Found, Sets.Pages;
  }

  lemma StepStays(a: Pair, req: nat, start: nat)
    requires start <= |a.l| && Enabled(a, Malloc(req, start)) && !Asks(a.l, start, req)
    ensures Step(a, Malloc(req, start)) == Running(Pair(Malloced(a.l, start, req + ALIGNMENT + ALIGN_INFO, req, 0), a.s))
  {
    hide Target, PagesFor, Malloced, Sets.Found, Sets.Pages;
  }

  /** What malloc needs from the supplier, and what holds afterwards. */
  lemma StepReady(a: Pair, held: set<nat>, req: nat, start: nat, limit: int)
    requires Fed(a, held, limit) && Enabled(a, Malloc(req, start)) && Sets.TOP * PAGE <= limit
    requires Step(a, Malloc(req, start)).Running?
    ensures var size := req + ALIGNMENT + ALIGN_INFO;
            var run := if Asks(a.l, start, req) then Sets.Found(a.s, PagesFor(size)) * PAGE else 0;
            SupplierReady(a.l, limit, start, size, run) && (Asks(a.l, start, req) ==> run != 0)
    ensures Fed(Step(a, Malloc(req, start)).pair, HeldAfter(a, held, Malloc(req, start)), limit)
    ensures held <= HeldAfter(a, held, Malloc(req, start))
  {
    hide Fed, Target, PagesFor, Malloced, Sets.Found, Sets.Pages, FreshRun;
    MallocFed(a, held, req, start, limit);
    RunNotNull(a, held, PagesFor(req + ALIGNMENT + ALIGN_INFO), limit);
  }

  lemma RunNotNull(a: Pair, held: set<nat>, n: nat, limit: int)
    requires Fed(a, held, limit) && n > 0
    ensures Sets.Found(a.s, n) > 0
  {
    hide Sets.LowestRun;
    ZeroUsed(a.s, held);
    assert Sets.Found(a.s, n) == 0 ==> Sets.ClearRun(a.s.used, 0, n);
  }

  /** What the heap does once it has its answer. */
  method Serve(h: HeapClass.Heap, req: nat, run: nat) returns (p: int)
    requires h.Valid() && h.CanMalloc(req, run) && (Asks(h.layout, h.MallocStart(req), req) ==> run != 0)
    modifies h
    ensures h.Valid() && |h.mem| == |old(h.mem)|
    ensures h.layout == Malloced(old(h.layout), old(h.MallocStart(req)), req + ALIGNMENT + ALIGN_INFO, req, run)
    ensures p != 0 && p in h.Sees() && |h.Sees()[p]| == req && p !in old(h.Sees())
    ensures h.Sees() == old(h.Sees())[p := h.Sees()[p]]
  {
    hide ValidLayout, NoneEmpty, Malloced, Target, SpotIn, KeepsUsers, Cleared, Alloc.UserPtr, MallocOutcome, View, InBounds,
         Live, Block, SupplierReady;
    ghost var l, m, start := h.layout, h.mem, h.MallocStart(req);
    p := h.Malloc(req, run);
    OutcomeLayout(l, m, h.layout, h.mem, start, req + ALIGNMENT + ALIGN_INFO, req, run, p);
    MallocNull(l, m, h.layout, h.mem, start, req + ALIGNMENT + ALIGN_INFO, req, run, p);
    ValidInBounds(l, m);
    ValidInBounds(h.layout, h.mem);
    MallocSees(l, m, h.layout, h.mem, start, req + ALIGNMENT + ALIGN_INFO, req, run, p);
  }

  /** From boot on: the page tables, a heap without majors, and a first malloc. It returns a block, or the
      kernel stops for want of memory; never NULL. */
  method Boot(nframes: nat, plp: nat, memory: seq<bv32>, page: nat, bytes: Mem, req: nat)
    returns (up: bool, h: HeapClass.Heap, p: int)
    requires 16 <= nframes <= Frames.MAX_FRAMES && Paging.KERNEL_BASE <= plp <= PagingClass.MAX_IMAGE
    requires |memory| == nframes / 16 && page < Sets.TOP
    requires Sets.TOP * PAGE <= |bytes| <= WORD_LIMIT && RequestFits(req)
    requires nframes + PagesFor(req + ALIGNMENT + ALIGN_INFO) <= Sets.Bits(nframes)
    ensures fresh(h)
    ensures up ==> h.Valid() && p != 0 && h.Sees().Keys == {p} && |h.Sees()[p]| == req
  {
    hide HeapClass.Heap.Valid, AddressSpaces.Spaces.Valid, PagesFor, Sets.Good, View;
    h := new HeapClass.Heap(bytes);
    NothingSeen(h);
    p := 0;
    var system;
    up, system := AddressSpaces.Boot(nframes, plp, memory, page);
    if up {
      SystemFacts(system);
      BootFed(system.mmu.View(), |bytes|, req);
      var stopped;
      ghost var held;
      p, stopped, held := MallocOn(h, system, req, true, {0});
      up := !stopped;
    }
  }
}
