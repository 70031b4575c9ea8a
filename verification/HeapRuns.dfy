/** Runs of the heap: any sequence of mallocs, frees, in-place shrinks and writes by callers.
    A moving realloc is a malloc, a write and a free. A free that gives pages back does what the words
    below the major make it do; once one has done harm, memory no longer describes the layout, so the theorems
    are about runs without such a free. */
module HeapRuns {
  import opened Memory
  import opened HeapLayout
  import opened HeapSearch
  import opened HeapHeaders
  import opened HeapFrames
  import opened HeapOutcome
  import opened HeapFree
  import opened HeapContents
  import opened HeapWrites
  import opened HeapRelease
  import HeapClass

  datatype State = State(l: Layout, m: Mem)

  /** `start`, `run` and `here` are the environment's part: where the scan begins, what the page supplier
      answers, which pages are present. `m1` is memory before pages are given back. */
  datatype Event =
    | Malloc(req: nat, start: nat, run: int, p: int)
    | Free(p: int, here: Pages, m1: Mem)
    | Shrink(p: int, req: nat)
    | Write(p: int)

  ghost predicate Step(s: State, e: Event, s': State) {
    |s'.m| == |s.m| &&
    match e
    case Malloc(req, start, run, p) =>
      && start <= |s.l| && SupplierReady(s.l, |s.m|, start, req + ALIGNMENT + ALIGN_INFO, run)
      && MallocOutcome(s.l, s.m, s'.l, s'.m, start, req + ALIGNMENT + ALIGN_INFO, req, run, p)
    case Free(p, here, m1) =>
      FreeEnds(s.l, s.m, here, s'.l, m1, s'.m, false, p)
    case Shrink(p, req) =>
      && Live(s.l, p) && req <= Block(s.l, p).req && s'.l == Resized(s.l, p, req)
      && forall x :: 0 <= x < |s.m| && !InHeader(Block(s.l, p).addr, x) ==> s'.m[x] == s.m[x]
    case Write(p) =>
      Live(s.l, p) && s'.l == s.l && OnlyBody(s.m, s'.m, Block(s.l, p))
  }

  /** A free that empties no major, or whose pages can be given back quietly: exactly the frees after which
      memory still represents the layout (`HarmlessExactly`). All other steps qualify. */
  ghost predicate Calm(s: State, e: Event) {
    e.Free? && Live(s.l, e.p) ==> Harmless(s.l, s.m, e.here, e.p)
  }

  ghost predicate Good(s: State) {
    ValidLayout(s.l, |s.m|) && NoneEmpty(s.l)
  }

  lemma StepGood(s: State, e: Event, s': State)
    requires Good(s) && Step(s, e, s')
    ensures Good(s')
  {
    hide ValidLayout, NoneEmpty, KeepsUsers, Confined, Cleared, Alien, Alloc.UserPtr, Place, Malloced, SupplierReady;
    match e
    case Malloc(req, start, run, p) =>
      MallocedValid(s.l, |s.m|, start, req, run);
      OutcomeNoneEmpty(s.l, s.m, s'.l, s'.m, start, req + ALIGNMENT + ALIGN_INFO, req, run, p);
    case Free(p, _, _) =>
      ReleaseValid(s.l, |s.m|, Locate(s.l, p).0, Locate(s.l, p).1);
    case Shrink(p, req) =>
      BlockIs(s.l, p);
      ResizeLayout(s.l, |s.m|, Locate(s.l, p).0, Locate(s.l, p).1, req);
    case Write(_) =>
  }

  lemma MallocedValid(l: Layout, limit: int, start: nat, req: nat, run: int)
    requires ValidLayout(l, limit) && start <= |l| && SupplierReady(l, limit, start, req + ALIGNMENT + ALIGN_INFO, run)
    ensures ValidLayout(Malloced(l, start, req + ALIGNMENT + ALIGN_INFO, req, run), limit)
  {
    hide ValidLayout, Place, FreshRun, PagesFor, Region.Gap;
    var size := req + ALIGNMENT + ALIGN_INFO;
    var j := Target(l, size + HEADER, start);
    if j < |l| {
      PlaceValid(l, limit, j, Fit(l[j], size + HEADER), size, req);
    } else if run != 0 {
      AppendValid(l, limit, run, size);
      PlaceValid(l + [NewRegion(run, size)], limit, |l|, 0, size, req);
    }
  }

  /** Block `x` is live in both states, with the same size and the same bytes. */
  ghost predicate SameBlock(s: State, s': State, x: int) {
    && Live(s.l, x) && Live(s'.l, x) && Block(s'.l, x).req == Block(s.l, x).req
    && InMem(s.m, x, Size(s.l, x)) && InMem(s'.m, x, Size(s'.l, x))
    && s'.m[x..x + Size(s'.l, x)] == s.m[x..x + Size(s.l, x)]
  }

  ghost function Size(l: Layout, x: int): nat
    requires Live(l, x)
  {
    if Block(l, x).req < 0 then 0 else Block(l, x).req
  }

  lemma SameBlockIntro(s: State, s': State, x: int)
    requires Good(s) && Good(s') && Live(s.l, x) && Live(s'.l, x) && Block(s'.l, x).req == Block(s.l, x).req
    requires |s'.m| == |s.m| && forall i :: 0 <= i < |s.m| && x <= i < x + Block(s.l, x).req ==> s'.m[i] == s.m[i]
    ensures SameBlock(s, s', x)
  {
    hide ValidLayout, Live, Block, Alloc.UserPtr;
    ValidInBounds(s.l, s.m);
  }

  /** One step changes no byte of a block it is not about. */
  lemma StepKeeps(s: State, e: Event, s': State, x: int)
    requires Good(s) && Step(s, e, s') && Calm(s, e) && Live(s.l, x) && x != e.p
    ensures SameBlock(s, s', x)
  {
    hide ValidLayout, NoneEmpty, Confined, Cleared, Alien, Alloc.UserPtr, Place, Malloced, SupplierReady, KeepsUsers, Block, Live,
         SameBlock, InBounds, MallocOutcome, Resized, Freed, Harmless, FreeEnds;
    StepGood(s, e, s');
    ValidInBounds(s.l, s.m);
    ValidInBounds(s'.l, s'.m);
    match e
    case Malloc(req, start, run, p) =>
      MallocNull(s.l, s.m, s'.l, s'.m, start, req + ALIGNMENT + ALIGN_INFO, req, run, p);
      if p != 0 {
        MallocSees(s.l, s.m, s'.l, s'.m, start, req + ALIGNMENT + ALIGN_INFO, req, run, p);
        OutcomeKeeps(s.l, s.m, s'.l, s'.m, start, req + ALIGNMENT + ALIGN_INFO, req, run, p);
        KeptBytes(s.l, s.m, s'.m, x);
      }
      SameBlockIntro(s, s', x);
    case Free(p, here, m1) =>
      EndsLive(s.l, s.m, here, s'.l, m1, s'.m, p);
      HarmlessFree(s.l, s.m, here, s'.l, m1, s'.m, false, p);
      ReleaseRemoves(s.l, |s.m|, p);
      KeptBytes(s.l, s.m, s'.m, x);
      SameBlockIntro(s, s', x);
    case Shrink(p, req) =>
      ResizeLive(s.l, |s.m|, p, req, x);
      BodyNotHeader(s.l, s.m, s'.m, p, x);
      SameBlockIntro(s, s', x);
    case Write(p) =>
      WriteKeeps(s.l, s.m, s'.m, p, x);
      SameBlockIntro(s, s', x);
  }

  lemma EndsLive(l: Layout, m: Mem, here: Pages, l': Layout, m1: Mem, m': Mem, p: int)
    requires FreeEnds(l, m, here, l', m1, m', false, p)
    ensures Live(l, p) && l' == Freed(l, p)
  {
  }

  lemma OutcomeKeeps(l: Layout, m: Mem, l': Layout, m': Mem, start: nat, size: int, req: int, run: int, p: int)
    requires start <= |l| && 0 <= size && MallocOutcome(l, m, l', m', start, size, req, run, p) && p != 0
    ensures KeepsUsers(m, m', l)
  {
  }

  lemma KeptBytes(l: Layout, m: Mem, m': Mem, x: int)
    requires KeepsUsers(m, m', l) && Live(l, x)
    ensures forall i :: 0 <= i < |m| && x <= i < x + Block(l, x).req ==> m'[i] == m[i]
  {
    assert Kept(m, m', Block(l, x));
  }

  lemma WriteKeeps(l: Layout, m: Mem, m': Mem, p: int, x: int)
    requires ValidLayout(l, |m|) && Live(l, p) && Live(l, x) && x != p && OnlyBody(m, m', Block(l, p))
    ensures forall i :: 0 <= i < |m| && x <= i < x + Block(l, x).req ==> m'[i] == m[i]
  {
    hide ValidLayout, Alloc.UserPtr, Live;
    TwoBlocks(l, m, p, x);
  }

  // ---------------------------------------------------------------- runs

  ghost predicate IsRun(ss: seq<State>, es: seq<Event>) {
    |ss| == |es| + 1 && forall i :: 0 <= i < |es| ==> Step(ss[i], es[i], ss[i + 1])
  }

  /** No free of the run harms the heap. */
  ghost predicate AllCalm(ss: seq<State>, es: seq<Event>) {
    |ss| == |es| + 1 && forall i :: 0 <= i < |es| ==> Calm(ss[i], es[i])
  }

  /** In particular, runs in which no free empties a major. */
  ghost predicate KeepsMajors(ss: seq<State>, es: seq<Event>) {
    |ss| == |es| + 1 && forall i :: 0 <= i < |es| ==> NoMajorEmptied(ss[i], es[i])
  }

  ghost predicate NoMajorEmptied(s: State, e: Event) {
    e.Free? && Live(s.l, e.p) ==> !Empties(s.l, e.p)
  }

  lemma KeptMajorsCalm(ss: seq<State>, es: seq<Event>)
    requires KeepsMajors(ss, es)
    ensures AllCalm(ss, es)
  {
    hide Empties, Live, Quiet;
    forall i | 0 <= i < |es| ensures Calm(ss[i], es[i]) {
      assert NoMajorEmptied(ss[i], es[i]);
    }
  }

  lemma {:induction false} RunGood(ss: seq<State>, es: seq<Event>, i: nat)
    requires IsRun(ss, es) && AllCalm(ss, es) && Good(ss[0]) && i < |ss|
    ensures Good(ss[i])
  {
    hide Good, Step;
    if i > 0 {
      RunGood(ss, es, i - 1);
      StepGood(ss[i - 1], es[i - 1], ss[i]);
    }
  }

  /** Over every run of harmless frees, an allocation keeps its size and every byte until a step names its pointer. */
  lemma {:induction false} RunKeeps(ss: seq<State>, es: seq<Event>, i: nat, j: nat, x: int)
    requires IsRun(ss, es) && AllCalm(ss, es) && Good(ss[0]) && i <= j < |ss| && Live(ss[i].l, x)
    requires forall n :: i <= n < j ==> es[n].p != x
    ensures SameBlock(ss[i], ss[j], x)
  {
    hide Good, Step, Live, Block, Calm;
    RunGood(ss, es, i);
    if i == j {
      SameBlockRefl(ss[i], x);
    } else {
      RunKeeps(ss, es, i, j - 1, x);
      RunGood(ss, es, j - 1);
      StepKeeps(ss[j - 1], es[j - 1], ss[j], x);
    }
  }

  /** Without any condition, as long as no free empties a major. */
  lemma RunKeepsAlways(ss: seq<State>, es: seq<Event>, i: nat, j: nat, x: int)
    requires IsRun(ss, es) && KeepsMajors(ss, es) && Good(ss[0]) && i <= j < |ss| && Live(ss[i].l, x)
    requires forall n :: i <= n < j ==> es[n].p != x
    ensures SameBlock(ss[i], ss[j], x)
  {
    hide Good, Step, Live, Block, Calm, NoMajorEmptied;
    KeptMajorsCalm(ss, es);
    RunKeeps(ss, es, i, j, x);
  }

  lemma SameBlockRefl(s: State, x: int)
    requires Good(s) && Live(s.l, x)
    ensures SameBlock(s, s, x)
  {
    SameBlockIntro(s, s, x);
  }

  /** In every state of every run of harmless frees, live blocks are aligned, in memory, pairwise disjoint and
      clear of every header. */
  lemma RunIsolated(ss: seq<State>, es: seq<Event>, i: nat, x: int, y: int)
    requires IsRun(ss, es) && AllCalm(ss, es) && Good(ss[0]) && i < |ss| && Live(ss[i].l, x) && Live(ss[i].l, y)
    ensures var l, m := ss[i].l, ss[i].m;
            && x % ALIGNMENT == 0 && 0 <= Block(l, x).req && InMem(m, x, Block(l, x).req)
            && (x == y || x + Block(l, x).req <= y || y + Block(l, y).req <= x)
            && ClearOfHeaders(l, x, Block(l, x).req)
  {
    hide Step, Live, ValidLayout, Alloc.UserPtr;
    RunGood(ss, es, i);
    ValidInBounds(ss[i].l, ss[i].m);
    if x != y {
      TwoBlocks(ss[i].l, ss[i].m, x, y);
    }
    AlignBounds(Block(ss[i].l, x));
    BlockClear(ss[i].l, |ss[i].m|, x);
  }

  // ---------------------------------------------------------------- the heap makes these steps

  ghost function StateOf(h: HeapClass.Heap): State
    reads h
  {
    State(h.layout, h.mem)
  }

  method MallocStep(h: HeapClass.Heap, req: nat, run: int) returns (p: int)
    requires h.Valid() && h.CanMalloc(req, run)
    modifies h
    ensures h.Valid() && Step(old(StateOf(h)), Event.Malloc(req, old(h.MallocStart(req)), run, p), StateOf(h))
  {
    hide ValidLayout, NoneEmpty, Malloced, Target, SpotIn, KeepsUsers, Cleared, Alloc.UserPtr;
    p := h.Malloc(req, run);
  }

  /** A free after which the kernel still runs is one step. */
  method FreeStep(h: HeapClass.Heap, p: int, here: Pages) returns (halted: bool, ghost m1: Mem)
    requires h.Valid() && Live(h.layout, p)
    modifies h
    ensures !halted && |h.mem| == |old(h.mem)| ==> Step(old(StateOf(h)), Event.Free(p, here, m1), StateOf(h))
    ensures Calm(old(StateOf(h)), Event.Free(p, here, m1)) ==> h.Valid() && !halted && |h.mem| == |old(h.mem)|
  {
    hide ValidLayout, NoneEmpty, Alien, Live, FreeEnds, Harmless, View;
    var frames;
    halted, frames, m1 := h.Free(p, here);
    if Calm(old(StateOf(h)), Event.Free(p, here, m1)) {
      FreedLength(old(h.layout), old(h.mem), h.layout, h.mem, p);
    }
  }

  /** Realloc in place is one step. */
  method ShrinkStep(h: HeapClass.Heap, p: int, size: nat, run: int, here: Pages) returns (q: int)
    requires h.Valid() && Live(h.layout, p) && 0 < size <= Block(h.layout, p).req
    modifies h
    ensures h.Valid() && q == p && Step(old(StateOf(h)), Event.Shrink(p, size), StateOf(h))
  {
    hide ValidLayout, NoneEmpty, Alien, Live, View, Block, MoveSteps, FreeOutcome, SupplierReady, Resized, Harmless, FreeEnds;
    NullNotLive(h.layout, |h.mem|);
    ValidInBounds(h.layout, h.mem);
    BoundsAt(h.layout, h.mem, p);
    ViewAt(h.layout, h.mem, p);
    ghost var l1, m1, m2, m3;
    var halted;
    q, halted, l1, m1, m2, m3 := h.Realloc(p, size, run, here);
  }

  lemma RunOf(s0: State, e1: Event, s1: State)
    requires Step(s0, e1, s1)
    ensures IsRun([s0, s1], [e1])
  {
  }

  lemma RunOfTwo(s0: State, e1: Event, s1: State, e2: Event, s2: State)
    requires Step(s0, e1, s1) && Step(s1, e2, s2)
    ensures IsRun([s0, s1, s2], [e1, e2])
  {
    hide Step;
    var ss, es := [s0, s1, s2], [e1, e2];
    assert Step(ss[0], es[0], ss[1]) && Step(ss[1], es[1], ss[2]);
  }

  lemma RunOfThree(s0: State, e1: Event, s1: State, e2: Event, s2: State, e3: Event, s3: State)
    requires Step(s0, e1, s1) && Step(s1, e2, s2) && Step(s2, e3, s3)
    ensures IsRun([s0, s1, s2, s3], [e1, e2, e3])
  {
    hide Step;
    var ss, es := [s0, s1, s2, s3], [e1, e2, e3];
    assert Step(ss[0], es[0], ss[1]) && Step(ss[1], es[1], ss[2]) && Step(ss[2], es[2], ss[3]);
  }

  /** The events a realloc of block `p` is made of, when it returns `q`: a free for size 0, a shrink in
      place, or a malloc, a write and a free, cut short where malloc fails. */
  ghost function ReallocEvents(p: int, oldReq: int, size: nat, start: nat, run: int, here: Pages, q: int, m3: Mem): seq<Event> {
    if size == 0 then [Event.Free(p, here, m3)]
    else if size <= oldReq then [Shrink(p, size)]
    else if q != 0 then [Event.Malloc(size, start, run, q), Write(q), Event.Free(p, here, m3)]
    else if oldReq > 0 then [Event.Malloc(size, start, run, 0)]
    else [Event.Malloc(size, start, run, 0), Event.Free(p, here, m3)]
  }

  lemma EndsLength(l: Layout, m: Mem, here: Pages, l': Layout, m1: Mem, m': Mem, p: int, limit: int)
    requires FreeEnds(l, m, here, l', m1, m', false, p) && ValidLayout(l, |m|)
    ensures |m'| == |m|
  {
    hide ValidLayout, GiveBack;
    LiveLength(l, m, m1);
    var r := l[Locate(l, p).0];
    RegionAligned(l, |m|, Locate(l, p).0);
    AboveSame(m1, here, r.addr, r.pages);
  }

  lemma MoveIsRun(s: State, start: nat, oldReq: nat, size: nat, run: int, here: Pages, p: int, q: int,
                  l1: Layout, m1: Mem, m2: Mem, m3: Mem, s': State, halted: bool) returns (ss: seq<State>)
    requires MoveSteps(s.l, s.m, start, oldReq, size, run, here, p, q, l1, m1, m2, m3, s'.l, s'.m, halted) && oldReq < size
    requires !halted || (q == 0 && oldReq > 0)
    requires SupplierReady(s.l, |s.m|, start, size + ALIGNMENT + ALIGN_INFO, run) && Good(s)
    ensures |ss| > 0 && ss[0] == s && ss[|ss| - 1] == s'
    ensures IsRun(ss, ReallocEvents(p, oldReq, size, start, run, here, q, m3))
  {
    hide MallocOutcome, FreeEnds, OnlyBody, Copied, Live, Block, SupplierReady, Good;
    var malloc, free := Event.Malloc(size, start, run, q), Event.Free(p, here, m3);
    var s1, s2 := State(l1, m1), State(l1, m2);
    assert Step(s, malloc, s1);
    StepGood(s, malloc, s1);
    if q == 0 && oldReq > 0 {
      RunOf(s, malloc, s1);
      ss := [s, s1];
    } else {
      GoodLayout(s1);
      EndsLength(l1, m2, here, s'.l, m3, s'.m, p, |m2|);
      if q != 0 {
        assert Step(s1, Write(q), s2) && Step(s2, free, s');
        RunOfThree(s, malloc, s1, Write(q), s2, free, s');
        ss := [s, s1, s2, s'];
      } else {
        assert Step(s1, free, s');
        RunOfTwo(s, malloc, s1, free, s');
        ss := [s, s1, s'];
      }
    }
  }

  lemma GoodLayout(s: State)
    requires Good(s)
    ensures ValidLayout(s.l, |s.m|)
  {
  }

  /** new_realloc of a live block is a run of these steps, in every branch, as long as the kernel still runs
      afterwards, or stops for want of memory. */
  method ReallocRun(h: HeapClass.Heap, p: int, size: nat, run: int, here: Pages)
    returns (q: int, halted: bool, ghost ss: seq<State>, ghost m3: Mem)
    requires h.Valid() && Live(h.layout, p) && (Block(h.layout, p).req < size ==> h.CanMalloc(size, run))
    modifies h
    ensures !halted || (q == 0 && size > old(Block(h.layout, p).req) > 0) ==>
              && |ss| > 0 && ss[0] == old(StateOf(h)) && ss[|ss| - 1] == StateOf(h)
              && IsRun(ss, ReallocEvents(p, old(Block(h.layout, p).req), size, old(h.MallocStart(size)), run, here, q, m3))
  {
    hide ValidLayout, NoneEmpty, Alien, Live, View, Block, MoveSteps, FreeOutcome, SupplierReady, IsRun, Resized, Harmless,
         FreeEnds;
    NullNotLive(h.layout, |h.mem|);
    ValidInBounds(h.layout, h.mem);
    BoundsAt(h.layout, h.mem, p);
    ViewAt(h.layout, h.mem, p);
    ghost var s, oldReq, start := StateOf(h), Block(h.layout, p).req, h.MallocStart(size);
    ghost var l1, m1, m2;
    q, halted, l1, m1, m2, m3 := h.Realloc(p, size, run, here);
    ghost var s' := StateOf(h);
    ss := [];
    if size == 0 {
      if !halted {
        EndsLength(s.l, s.m, here, s'.l, m3, s'.m, p, |s.m|);
        RunOf(s, Event.Free(p, here, m3), s');
        ss := [s, s'];
      }
    } else if size <= oldReq {
      RunOf(s, Shrink(p, size), s');
      ss := [s, s'];
    } else if !halted || (q == 0 && oldReq > 0) {
      ss := MoveIsRun(s, start, oldReq, size, run, here, p, q, l1, m1, m2, m3, s', halted);
    }
  }

  lemma FreedLength(l: Layout, m: Mem, l': Layout, m': Mem, p: int)
    requires FreeOutcome(l, m, l', m', p)
    ensures |m'| == |m|
  {
  }

  method WriteStep(h: HeapClass.Heap, p: int, i: nat, b: Byte)
    requires h.Valid() && Live(h.layout, p) && i < Block(h.layout, p).req
    modifies h`mem
    ensures h.Valid() && Step(old(StateOf(h)), Event.Write(p), StateOf(h))
  {
    hide ValidLayout, NoneEmpty, Alien, Live, View;
    h.StoreByte(p, i, b);
  }

  /** From boot on: two allocations, the second without help from the page supplier, and a byte of the
      first one that stays. */
  method Boot(memory: Mem, n: nat, run: int, b: Byte) returns (h: HeapClass.Heap, p: int, q: int)
    requires |memory| <= WORD_LIMIT && 0 < n && RequestFits(n)
    requires run == 0 || FreshRun([], |memory|, run, PagesFor(n + ALIGNMENT + ALIGN_INFO))
    ensures fresh(h) && h.Valid() && (p == 0 <==> run == 0)
    ensures p != 0 ==> p in h.Sees() && |h.Sees()[p]| == n && h.Sees()[p][0] == b && p % ALIGNMENT == 0
    ensures p != 0 ==> forall i :: 0 < i < n ==> h.Sees()[p][i] == 0
    ensures q != 0 ==> q in h.Sees() && q != p
  {
    hide Rep, ValidLayout, View, Alloc.UserPtr, Block, Live, MallocOutcome, NoneEmpty, InBounds, FreshRun;
    var size := n + ALIGNMENT + ALIGN_INFO;
    h := new HeapClass.Heap(memory);
    ghost var s0 := StateOf(h);
    p := h.Malloc(n, run);
    FirstServed(s0.m, h.layout, h.mem, size, n, run, p);
    if p != 0 {
      ValidInBounds(s0.l, s0.m);
      ValidInBounds(h.layout, h.mem);
      MallocSees(s0.l, s0.m, h.layout, h.mem, 0, size, n, run, p);
      ghost var cleared := h.mem[p..p + n];
      assert forall i :: 0 <= i < n ==> cleared[i] == 0;
      h.StoreByte(p, 0, b);
      h.Isolation(p, p);
    }
    ghost var s1, start := StateOf(h), h.MallocStart(n);
    ghost var seen := h.Sees();
    q := h.Malloc(n, 0);
    ValidInBounds(s1.l, s1.m);
    ValidInBounds(h.layout, h.mem);
    MallocNull(s1.l, s1.m, h.layout, h.mem, start, size, n, 0, q);
    if q != 0 {
      MallocSees(s1.l, s1.m, h.layout, h.mem, start, size, n, 0, q);
    }
  }

  lemma FirstServed(m: Mem, l': Layout, m': Mem, size: int, req: int, run: int, p: int)
    requires 0 <= size && MallocOutcome([], m, l', m', 0, size, req, run, p)
    ensures p == 0 <==> run == 0
    ensures p != 0 ==> Cleared(m', p, req)
  {
    hide PagesFor, Cleared, Region.Gap;
  }
}
