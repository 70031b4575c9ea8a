/** Physical frames as sets, and the translation of pages below the end of the kernel heap as a map:
    what frame.c and page.c keep over any run of allocations and releases. */
module FrameModel {

  const PAGE := 0x1000
  const TOP := 0x2_0000          // pages below KHEAP_END, 0x20000000

  ghost predicate ClearRun(used: set<nat>, s: nat, n: nat) {
    forall k: nat :: s <= k < s + n ==> k !in used
  }

  /** The lowest of `s..limit` where `n` clear frames start; `limit` if there is none. */
  ghost function LowestRun(used: set<nat>, n: nat, s: nat, limit: nat): (r: nat)
    requires s <= limit
    ensures s <= r <= limit
    ensures r < limit ==> ClearRun(used, r, n)
    ensures forall t: nat :: s <= t < r ==> !ClearRun(used, t, n)
    decreases limit - s
  {
    if s == limit || ClearRun(used, s, n) then s else LowestRun(used, n, s + 1, limit)
  }

  lemma LowestRunIs(used: set<nat>, n: nat, limit: nat, r: nat)
    requires r <= limit && (r < limit ==> ClearRun(used, r, n))
    requires forall t: nat :: t < r ==> !ClearRun(used, t, n)
    ensures LowestRun(used, n, 0, limit) == r
  {
  }

  /** The run found lies wholly below `limit` exactly when some clear run does; at the top end the search
      also accepts a run that hangs over. */
  lemma RunInside(used: set<nat>, n: nat, limit: nat)
    ensures var r := LowestRun(used, n, 0, limit);
            (r < limit && r + n <= limit) <==> exists s: nat :: s < limit && s + n <= limit && ClearRun(used, s, n)
  {
  }

  /** The frames first_frame and mem_used look at: whole words of the bitmap. */
  function Counted(nframes: nat): (c: nat)
    ensures c <= nframes < c + 32 && c % 32 == 0
  {
    nframes / 32 * 32
  }

  /** The frames the bitmap has bits for: set_nframes reserves nframes / 4 bytes. */
  function Bits(nframes: nat): (b: nat)
    ensures nframes >= 16 ==> b >= nframes
  {
    nframes / 16 * 32
  }

  ghost function Below(used: set<nat>, c: nat): (r: set<nat>) {
    set f: nat | f < c && f in used
  }

  /** mem_used, in KB. */
  ghost function MemUsed(used: set<nat>, nframes: nat): nat {
    4 * |Below(used, Counted(nframes))|
  }

  predicate InRun(f: nat, s: nat, n: nat) { s <= f < s + n }

  /** The frames of a run that get a bit. */
  function Marked(s: nat, n: nat, nframes: nat): set<nat> {
    set f: nat | f < s + n && InRun(f, s, n) && f < nframes
  }

  /** Marking a clear run inside the counted words raises mem_used by 4 KB a frame. */
  lemma RunRaisesMemUsed(used: set<nat>, s: nat, n: nat, nframes: nat)
    requires ClearRun(used, s, n) && s + n <= Counted(nframes)
    ensures MemUsed(used + Marked(s, n, nframes), nframes) == MemUsed(used, nframes) + 4 * n
  {
    var m := Marked(s, n, nframes);
    var a, b := Below(used, Counted(nframes)), Below(used + m, Counted(nframes));
    assert b == a + m && a !! m;
    RunSize(s, n, nframes);
  }

  lemma {:induction false} RunSize(s: nat, n: nat, nframes: nat)
    requires s + n <= nframes
    ensures |Marked(s, n, nframes)| == n
  {
    if n > 0 {
      var f := s + n - 1;
      RunSize(s, n - 1, nframes);
      forall g: nat ensures g in Marked(s, n, nframes) <==> g in Marked(s, n - 1, nframes) || g == f {
        assert InRun(g, s, n) <==> InRun(g, s, n - 1) || g == f;
      }
      assert Marked(s, n, nframes) == Marked(s, n - 1, nframes) + {f};
    }
  }

  // ---------------------------------------------------------------- runs

  /** `used`: the set bits. `at`: the frame of every mapped page below KHEAP_END. */
  datatype State = State(nframes: nat, used: set<nat>, at: map<nat, nat>)

  datatype Event = AllocFrame(page: nat) | FreeFrame(page: nat) | AllocPages(n: nat)

  datatype Outcome = Running(state: State) | Panic

  ghost function Alloc(s: State, page: nat): Outcome {
    var f := LowestRun(s.used, 1, 0, Counted(s.nframes));
    if page in s.at then Running(s)
    else if f == Counted(s.nframes) then Panic
    else Running(s.(used := s.used + {f}, at := s.at[page := f]))
  }

  ghost function Free(s: State, page: nat): Outcome {
    if page !in s.at then Panic
    else Running(s.(used := s.used - {s.at[page]}, at := s.at - {page}))
  }

  function Identity(s: nat, n: nat): map<nat, nat> {
    map k: nat | k < s + n && InRun(k, s, n) :: k
  }

  /** The start of the run mm_alloc_pages takes; `nframes` stands for its failure. */
  ghost function Found(s: State, n: nat): (r: nat)
    ensures r <= s.nframes && (r < s.nframes ==> ClearRun(s.used, r, n))
  {
    LowestRun(s.used, n, 0, s.nframes)
  }

  /** A failed search changes nothing; a run past KHEAP_END panics for want of a page table. */
  ghost function Pages(s: State, n: nat): Outcome {
    var r := Found(s, n);
    if r == s.nframes then Running(s)
    else if r + n > TOP then Panic
    else Running(s.(used := s.used + Marked(r, n, s.nframes), at := s.at + Identity(r, n)))
  }

  ghost function Step(s: State, e: Event): Outcome {
    match e
    case AllocFrame(page) => Alloc(s, page)
    case FreeFrame(page) => Free(s, page)
    case AllocPages(n) => Pages(s, n)
  }

  /** What the source demands of its callers: the entry exists, and no bit is addressed past the bitmap. */
  ghost predicate Enabled(s: State, e: Event) {
    match e
    case AllocFrame(page) => page < TOP
    case FreeFrame(page) => page in s.at ==> s.at[page] < Bits(s.nframes)
    case AllocPages(n) => s.nframes + n <= Bits(s.nframes)
  }

  ghost predicate NoSharing(at: map<nat, nat>) {
    forall p, q :: p in at && q in at && p != q ==> at[p] != at[q]
  }

  /** Frame 0 stays reserved, no two mapped pages share a frame, and a mapped frame is marked. */
  ghost predicate Good(s: State) {
    && 0 in s.used && (forall f :: f in s.used ==> f < Bits(s.nframes))
    && (forall p :: p in s.at ==> p < TOP && s.at[p] != 0)
    && NoSharing(s.at)
    && forall p :: p in s.at ==> if s.at[p] < s.nframes then s.at[p] in s.used else s.at[p] == p
  }

  /** Set bits that belong to no mapped page. */
  ghost function Reserved(s: State): set<nat> {
    s.used - s.at.Values
  }

  /** Frames of pages that mm_alloc_pages maps over: their bits stay set. */
  ghost function Leaked(s: State, e: Event): set<nat> {
    if e.AllocPages? && Found(s, e.n) < s.nframes
    then set f: nat | f in s.used && exists k :: Found(s, e.n) <= k < Found(s, e.n) + e.n && k in s.at && s.at[k] == f
    else {}
  }

  lemma AllocGood(s: State, page: nat)
    requires Good(s) && page < TOP && Alloc(s, page).Running?
    ensures var s' := Alloc(s, page).state;
            && Good(s') && page in s'.at && Reserved(s') == Reserved(s)
            && forall p :: p != page ==> (p in s'.at <==> p in s.at) && (p in s.at ==> s'.at[p] == s.at[p])
  {
    hide LowestRun, Counted, Bits;
    if page !in s.at {
      var f := LowestRun(s.used, 1, 0, Counted(s.nframes));
      var s' := Alloc(s, page).state;
      assert f !in s.used;
      BitsCover(s.nframes, f);
      assert forall g :: g in s'.at.Values <==> g in s.at.Values || g == f by {
        assert s'.at[page] == f;
        assert forall p :: p in s.at ==> s'.at[p] == s.at[p];
      }
      assert Reserved(s') == Reserved(s);
    }
  }

  lemma BitsCover(nframes: nat, f: nat)
    requires f < Counted(nframes)
    ensures f < nframes && f < Bits(nframes)
  {
  }

  lemma FreeGood(s: State, page: nat)
    requires Good(s) && page in s.at
    ensures var s' := Free(s, page).state;
            && Good(s') && page !in s'.at && Reserved(s') == Reserved(s)
            && forall p :: p != page ==> (p in s'.at <==> p in s.at) && (p in s.at ==> s'.at[p] == s.at[p])
  {
    hide Bits;
    var s' := Free(s, page).state;
    forall g ensures g in s'.at.Values <==> g in s.at.Values && g != s.at[page] {
      if g in s.at.Values && g != s.at[page] {
        var p :| p in s.at && s.at[p] == g;
        assert p in s'.at;
      }
    }
    assert Reserved(s') == Reserved(s);
  }

  /** The pages of a clear run are mapped to frames no other page has. */
  lemma PagesNoSharing(s: State, n: nat)
    requires Good(s) && Pages(s, n).Running? && Found(s, n) < s.nframes
    ensures NoSharing(Pages(s, n).state.at)
  {
    hide Bits;
    var r := Found(s, n);
    var at := Pages(s, n).state.at;
    forall p, q | p in at && q in at && p != q ensures at[p] != at[q] {
      if InRun(p, r, n) && !InRun(q, r, n) {
        assert at[q] == s.at[q] && p !in s.used;
      } else if InRun(q, r, n) && !InRun(p, r, n) {
        assert at[p] == s.at[p] && q !in s.used;
      }
    }
  }

  lemma PagesGood(s: State, n: nat)
    requires Good(s) && s.nframes + n <= Bits(s.nframes) && Pages(s, n).Running?
    ensures var s' := Pages(s, n).state;
            && Good(s') && Reserved(s') == Reserved(s) + Leaked(s, AllocPages(n))
            && forall p :: p in s'.at && !(p in s.at && s'.at[p] == s.at[p]) ==> s'.at[p] == p
  {
    hide Bits, NoSharing, Reserved, Leaked;
    var r := Found(s, n);
    if r < s.nframes {
      PagesNoSharing(s, n);
      PagesReserved(s, n);
      assert n > 0 ==> 0 < r;
    } else {
      NoneLeaked(s, n);
    }
  }

  lemma NoneLeaked(s: State, n: nat)
    requires Found(s, n) == s.nframes
    ensures Leaked(s, AllocPages(n)) == {}
  {
  }

  /** A leak, in a state that paging_fini does not leave: page 1 is mapped to frame 5 when frame 1 is handed
      out, so page 1 is mapped over it. */
  lemma LeakHappens(s: State)
    requires s == State(32, {0, 5}, map[1 := 5])
    ensures Good(s) && Enabled(s, AllocPages(1)) && Found(s, 1) == 1 && Leaked(s, AllocPages(1)) == {5}
    ensures Pages(s, 1) == Running(State(32, {0, 1, 5}, map[1 := 1]))
  {
    assert 0 in s.used && !ClearRun(s.used, 0, 1);
    LowestRunIs(s.used, 1, 32, 1);
    assert InRun(1, 1, 1);
    assert s.used + Marked(1, 1, 32) == {0, 1, 5};
    assert s.at + Identity(1, 1) == map[1 := 1];
    assert 1 in s.at && s.at[1] == 5;
  }

  lemma PagesReserved(s: State, n: nat)
    requires Good(s) && Pages(s, n).Running? && Found(s, n) < s.nframes && Found(s, n) + n <= TOP
    ensures Reserved(Pages(s, n).state) == Reserved(s) + Leaked(s, AllocPages(n))
  {
    hide Bits;
    var r := Found(s, n);
    var s' := Pages(s, n).state;
    forall f: nat ensures f in Reserved(s') <==> f in Reserved(s) || f in Leaked(s, AllocPages(n)) {
      if r <= f < r + n {
        assert s'.at[f] == f;
        assert f in s'.at.Values;
      } else if f in s.at.Values {
        var p :| p in s.at && s.at[p] == f;
        if !(r <= p < r + n) {
          assert s'.at[p] == f;
          assert f in s'.at.Values;
        }
      }
    }
  }

  // ---------------------------------------------------------------- runs

  ghost function After(s: State, es: seq<Event>): Outcome
    decreases |es|
  {
    if es == [] then Running(s)
    else
      match Step(s, es[0])
      case Panic => Panic
      case Running(s') => After(s', es[1..])
  }

  ghost predicate Legal(s: State, es: seq<Event>)
    decreases |es|
  {
    es == [] ||
    (Enabled(s, es[0]) && (Step(s, es[0]).Running? ==> Legal(Step(s, es[0]).state, es[1..])))
  }

  ghost function AllLeaked(s: State, es: seq<Event>): set<nat>
    decreases |es|
  {
    if es == [] || Step(s, es[0]).Panic? then {}
    else Leaked(s, es[0]) + AllLeaked(Step(s, es[0]).state, es[1..])
  }

  lemma StepGood(s: State, e: Event)
    requires Good(s) && Enabled(s, e) && Step(s, e).Running?
    ensures Good(Step(s, e).state) && Reserved(Step(s, e).state) == Reserved(s) + Leaked(s, e)
    ensures Step(s, e).state.nframes == s.nframes
  {
    hide Good, Reserved, Bits, LowestRun;
    match e
    case AllocFrame(page) => AllocGood(s, page);
    case FreeFrame(page) => FreeGood(s, page);
    case AllocPages(n) => PagesGood(s, n);
  }

  /** Frame ownership, over every run: frame 0 stays reserved, no two pages share a frame, every mapped
      frame is marked, and the marked frames of no page are those of the start and those leaked. */
  lemma {:induction false} RunGood(s: State, es: seq<Event>)
    requires Good(s) && Legal(s, es) && After(s, es).Running?
    ensures Good(After(s, es).state) && Reserved(After(s, es).state) == Reserved(s) + AllLeaked(s, es)
    ensures After(s, es).state.nframes == s.nframes
    decreases |es|
  {
    hide Good, Reserved, Bits, LowestRun, Step, Leaked, Enabled;
    if es != [] {
      StepGood(s, es[0]);
      RunGood(Step(s, es[0]).state, es[1..]);
    }
  }

  lemma {:induction false} NoLeak(s: State, es: seq<Event>)
    requires forall e :: e in es ==> !e.AllocPages?
    ensures AllLeaked(s, es) == {}
    decreases |es|
  {
    hide Step;
    if es != [] && Step(s, es[0]).Running? {
      assert es[0] in es;
      NoLeak(Step(s, es[0]).state, es[1..]);
    }
  }

  /** Hence over runs of alloc_frame and free_frame alone, the set bits are exactly the frames reserved at
      the start and the frames now mapped. */
  lemma ExactlyOwned(s: State, es: seq<Event>)
    requires Good(s) && Legal(s, es) && After(s, es).Running? && forall e :: e in es ==> !e.AllocPages?
    ensures var s' := After(s, es).state;
            forall f: nat :: f < s.nframes ==> (f in s'.used <==> f in Reserved(s) || f in s'.at.Values)
  {
    hide LowestRun, Bits, Step, Legal, After;
    RunGood(s, es);
    NoLeak(s, es);
    var s' := After(s, es).state;
    forall f: nat | f < s.nframes && f in s'.at.Values ensures f in s'.used {
      var p :| p in s'.at && s'.at[p] == f;
    }
    assert Reserved(s') == s'.used - s'.at.Values;
  }

  /** free_frame undoes alloc_frame on an unmapped page, and mem_used goes up and down with them. */
  lemma FreeUndoesAlloc(s: State, page: nat)
    requires Good(s) && page !in s.at && Alloc(s, page).Running?
    ensures var s' := Alloc(s, page).state;
            && Free(s', page) == Running(s)
            && MemUsed(s'.used, s.nframes) == MemUsed(s.used, s.nframes) + 4
  {
    hide LowestRun, Counted, Bits;
    var f := LowestRun(s.used, 1, 0, Counted(s.nframes));
    var s' := Alloc(s, page).state;
    assert f !in s.used;
    assert s'.used - {f} == s.used && s'.at - {page} == s.at;
    assert Below(s'.used, Counted(s.nframes)) == Below(s.used, Counted(s.nframes)) + {f};
  }

  /** alloc_frame takes the lowest free frame and panics exactly when every counted frame is marked. */
  lemma AllocTakesLowest(s: State, page: nat)
    requires page !in s.at
    ensures Alloc(s, page).Panic? <==> forall f: nat :: f < Counted(s.nframes) ==> f in s.used
    ensures Alloc(s, page).Running? ==>
              var f := Alloc(s, page).state.at[page];
              f !in s.used && f < Counted(s.nframes) && forall g: nat :: g < f ==> g in s.used
  {
    hide Counted;
    var r := LowestRun(s.used, 1, 0, Counted(s.nframes));
    forall f: nat | f < r ensures f in s.used {
      assert !ClearRun(s.used, f, 1);
    }
    if r < Counted(s.nframes) {
      assert ClearRun(s.used, r, 1);
      assert r !in s.used;
    }
  }

  // ---------------------------------------------------------------- no page is handed out twice

  /** The pages mm_alloc_pages hands out in a step, those past the last frame included. */
  ghost function Handed(s: State, e: Event): set<nat> {
    if e.AllocPages? && Found(s, e.n) < s.nframes
    then set k: nat | k < Found(s, e.n) + e.n && InRun(k, Found(s, e.n), e.n)
    else {}
  }

  ghost function AllHanded(s: State, es: seq<Event>): set<nat>
    decreases |es|
  {
    if es == [] || Step(s, es[0]).Panic? then {}
    else Handed(s, es[0]) + AllHanded(Step(s, es[0]).state, es[1..])
  }

  /** The runs handed out are pairwise disjoint. */
  ghost predicate NeverTwice(s: State, es: seq<Event>)
    decreases |es|
  {
    es == [] || Step(s, es[0]).Panic? ||
    (&& Handed(s, es[0]) !! AllHanded(Step(s, es[0]).state, es[1..])
     && NeverTwice(Step(s, es[0]).state, es[1..]))
  }

  /** Pages that are in use: their frames are marked, and the last frame is if some lie past it. */
  ghost predicate Holds(s: State, held: set<nat>) {
    forall k :: k in held ==> if k < s.nframes then k in s.used else s.nframes > 0 && s.nframes - 1 in s.used
  }

  lemma RunIsNew(s: State, held: set<nat>, n: nat)
    requires Holds(s, held)
    ensures Handed(s, AllocPages(n)) !! held
  {
    hide LowestRun;
    var r := Found(s, n);
    if r < s.nframes {
      assert forall k: nat :: InRun(k, r, n) ==> k !in s.used;
      assert InRun(s.nframes - 1, r, n) || r + n <= s.nframes;
    }
  }

  lemma StepHolds(s: State, held: set<nat>, e: Event)
    requires Holds(s, held) && !e.FreeFrame? && Step(s, e).Running?
    ensures Holds(Step(s, e).state, held + Handed(s, e))
  {
    hide LowestRun;
    var s' := Step(s, e).state;
    forall k | k in Handed(s, e) ensures if k < s'.nframes then k in s'.used else s'.nframes - 1 in s'.used {
      var r := Found(s, e.n);
      assert k < s.nframes ==> k in Marked(r, e.n, s.nframes);
      assert k >= s.nframes ==> InRun(s.nframes - 1, r, e.n) && s.nframes - 1 in Marked(r, e.n, s.nframes);
    }
  }

  /** While no frame is freed, mm_alloc_pages never hands out a page twice, nor one that is in use, runs
      that hang over included. */
  lemma {:induction false} HandedOnce(s: State, es: seq<Event>, held: set<nat>)
    requires Holds(s, held) && forall e :: e in es ==> !e.FreeFrame?
    ensures NeverTwice(s, es) && AllHanded(s, es) !! held
    decreases |es|
  {
    hide Step, Handed, Holds;
    if es != [] && Step(s, es[0]).Running? {
      assert es[0] in es;
      var s', now := Step(s, es[0]).state, Handed(s, es[0]);
      NewNow(s, held, es[0]);
      StepHolds(s, held, es[0]);
      HandedOnce(s', es[1..], held + now);
    }
  }

  lemma NewNow(s: State, held: set<nat>, e: Event)
    requires Holds(s, held)
    ensures Handed(s, e) !! held
  {
    hide Holds, Found;
    match e
    case AllocPages(n) => RunIsNew(s, held, n);
    case _ =>
  }
}
