/** What the frames and pages look like once paging_fini is done, and what this means for the runs that
    mm_alloc_pages then hands out. */
module FrameBoot {
  import opened FrameModel
  import opened Paging
  import opened PagingClass

  /** The state paging_fini leaves: the frames marked before, the image mapped to itself up to `base`, and
      the start of the heap on the lowest free frames. */
  ghost predicate Finished(s: State, nframes: nat, used: set<nat>, base: nat) {
    && 0xC0 <= base <= TOP - 0x100 && Good(Booted(nframes, used, base))
    && AllocRange(Booted(nframes, used, base), base, HeapStart(base)) == Running(s)
  }

  lemma HasFinished(mmu: Mmu, used: set<nat>, base: nat)
    requires mmu.Valid() && 0 < base <= TOP - 0x100
    requires mmu.HeapMapped(base, HeapStart(base), TOP, Booted(mmu.bitmap.nframes, used, base))
    ensures Finished(mmu.View(), mmu.bitmap.nframes, used, base)
  {
    hide Mmu.Valid, Mmu.View, Mmu.Entry, Good, AllocRange, Booted;
  }

  // ---------------------------------------------------------------- no frame leaks

  /** Every frame below `top` is marked, and no page from `top` on is mapped to a frame but its own. */
  ghost predicate Settled(s: State, top: nat) {
    && (forall f: nat :: f < top && f < s.nframes ==> f in s.used)
    && forall p :: p in s.at && p >= top ==> s.at[p] == p
  }

  /** alloc_frame takes the lowest free frame, so the heap pages fill whatever was free below them. */
  lemma {:induction false} RangeSettled(nframes: nat, used: set<nat>, base: nat, p: nat)
    requires 0 < base <= p <= TOP && Good(Booted(nframes, used, base))
    requires AllocRange(Booted(nframes, used, base), base, p).Running?
    ensures var s := AllocRange(Booted(nframes, used, base), base, p).state;
            Good(s) && s.nframes == nframes && Settled(s, p) && forall q :: q in s.at ==> q < p
    decreases p
  {
    hide Good, Bits, Counted, LowestRun;
    var s0 := Booted(nframes, used, base);
    if p == base {
      forall f: nat | f < base && f < nframes ensures f in s0.used {
        assert InRun(f, 0, base);
      }
      assert forall q :: q in s0.at ==> InRun(q, 1, base - 1);
    } else {
      RangeSettled(nframes, used, base, p - 1);
      var s := AllocRange(s0, base, p - 1).state;
      AllocGood(s, p - 1);
      AllocTakesLowest(s, p - 1);
      CountedLess(nframes);
    }
  }

  lemma CountedLess(nframes: nat)
    ensures Counted(nframes) <= nframes
  {
  }

  /** A call of mm_alloc_pages leaks no frame if and only if every mapped page of its run is at its own frame. */
  lemma LeaksExactly(s: State, n: nat)
    requires Good(s) && Found(s, n) < s.nframes
    ensures Leaked(s, AllocPages(n)) == {} <==>
            forall k :: k in s.at && InRun(k, Found(s, n), n) ==> s.at[k] == k
  {
    hide LowestRun, Bits;
    var r := Found(s, n);
    if k :| k in s.at && InRun(k, r, n) && s.at[k] != k {
      assert s.at[k] in Leaked(s, AllocPages(n));
    }
    if f :| f in Leaked(s, AllocPages(n)) {
      var k :| r <= k < r + n && k in s.at && s.at[k] == f;
      assert InRun(k, r, n) && k !in s.used;
    }
  }

  /** The calls the running kernel makes: runs of pages, and alloc_frame on pages below the heap's growth. */
  ghost predicate Usual(e: Event, top: nat) {
    e.AllocPages? || (e.AllocFrame? && e.page < top)
  }

  lemma StepSettled(s: State, e: Event, top: nat)
    requires Good(s) && Settled(s, top) && Usual(e, top) && Enabled(s, e)
    ensures Leaked(s, e) == {}
    ensures Step(s, e).Running? ==> Settled(Step(s, e).state, top)
  {
    hide LowestRun, Bits, Good, Counted;
    match e
    case AllocFrame(page) =>
    case AllocPages(n) =>
      var r := Found(s, n);
      if r == s.nframes {
        NoneLeaked(s, n);
      } else {
        if n > 0 {
          assert r !in s.used;
        }
        LeaksExactly(s, n);
      }
  }

  /** After paging_fini no run of such calls leaks a frame: mm_alloc_pages never maps over a page that has
      another frame. */
  lemma {:induction false} SettledNeverLeaks(s: State, es: seq<Event>, top: nat)
    requires Good(s) && Settled(s, top) && top <= TOP && Legal(s, es) && forall e :: e in es ==> Usual(e, top)
    ensures AllLeaked(s, es) == {}
    decreases |es|
  {
    hide Good, Settled, Enabled, Step, Leaked;
    if es != [] && Step(s, es[0]).Running? {
      assert es[0] in es;
      StepSettled(s, es[0], top);
      StepGood(s, es[0]);
      SettledNeverLeaks(Step(s, es[0]).state, es[1..], top);
    }
    if es != [] {
      assert es[0] in es;
      StepSettled(s, es[0], top);
    }
  }

  lemma NeverLeaks(s: State, nframes: nat, used: set<nat>, base: nat, es: seq<Event>)
    requires Finished(s, nframes, used, base)
    requires Legal(s, es) && forall e :: e in es ==> Usual(e, HeapStart(base))
    ensures AllLeaked(s, es) == {}
    ensures After(s, es).Running? ==>
              var s' := After(s, es).state;
              forall f: nat :: f < nframes ==> (f in s'.used <==> f in Reserved(s) || f in s'.at.Values)
  {
    hide Good, Bits, LowestRun, Legal, Step, After, Settled;
    RangeSettled(nframes, used, base, HeapStart(base));
    SettledNeverLeaks(s, es, HeapStart(base));
    if After(s, es).Running? {
      RunGood(s, es);
      Owned(s, After(s, es).state);
    }
  }

  lemma Owned(s: State, s': State)
    requires Good(s') && Reserved(s') == Reserved(s)
    ensures forall f: nat :: f < s'.nframes ==> (f in s'.used <==> f in Reserved(s) || f in s'.at.Values)
  {
    forall f: nat | f < s'.nframes && f in s'.at.Values ensures f in s'.used {
      var p :| p in s'.at && s'.at[p] == f;
    }
    assert Reserved(s') == s'.used - s'.at.Values;
  }

  // ---------------------------------------------------------------- a run that hangs over

  /** Exactly the frames below `k` are marked, and the pages below `k`, but for page 0, mapped to themselves. */
  ghost function Packed(nframes: nat, k: nat): State {
    State(nframes, Marked(0, k, nframes), if k == 0 then map[] else Identity(1, k - 1))
  }

  lemma PackedNext(nframes: nat, k: nat, n: nat)
    requires 0 < k < nframes
    ensures Packed(nframes, k).used + Marked(k, n, nframes) == Packed(nframes, k + n).used
    ensures Packed(nframes, k).at + Identity(k, n) == Packed(nframes, k + n).at
  {
    forall f: nat
      ensures f in Packed(nframes, k).used + Marked(k, n, nframes) <==> f in Packed(nframes, k + n).used
    {
      assert InRun(f, 0, k + n) <==> InRun(f, 0, k) || InRun(f, k, n);
    }
    forall f: nat
      ensures f in Packed(nframes, k).at + Identity(k, n) <==> f in Packed(nframes, k + n).at
    {
      assert InRun(f, 1, k + n - 1) <==> InRun(f, 1, k - 1) || InRun(f, k, n);
    }
  }

  /** The first run of `n` frames starts behind the marked ones. */
  lemma FirstAt(nframes: nat, k: nat, n: nat, limit: nat)
    requires k <= limit <= nframes && 0 < n
    ensures LowestRun(Packed(nframes, k).used, n, 0, limit) == k
  {
    var used := Packed(nframes, k).used;
    forall t: nat | t < k ensures !ClearRun(used, t, n) {
      assert InRun(t, 0, k) && t in used;
    }
    assert forall f: nat :: InRun(f, 0, k) <==> f < k;
    LowestRunIs(used, n, limit, k);
  }

  lemma AllocPacked(nframes: nat, k: nat)
    requires 0 < k < Counted(nframes)
    ensures Alloc(Packed(nframes, k), k) == Running(Packed(nframes, k + 1))
  {
    hide LowestRun, Counted;
    CountedLess(nframes);
    FirstAt(nframes, k, 1, Counted(nframes));
    PackedNext(nframes, k, 1);
    var s := Packed(nframes, k);
    assert forall f: nat :: InRun(f, k, 1) <==> f == k;
    assert s.used + {k} == s.used + Marked(k, 1, nframes);
    assert s.at[k := k] == s.at + Identity(k, 1);
    assert k !in s.at;
  }

  /** With no frame marked before, paging_fini maps every page up to the heap to itself. */
  lemma {:induction false} RangePacked(nframes: nat, base: nat, p: nat)
    requires 0 < base <= p <= Counted(nframes)
    ensures AllocRange(Booted(nframes, {}, base), base, p) == Running(Packed(nframes, p))
    decreases p
  {
    hide LowestRun, Counted, Packed, Alloc;
    if p == base {
      BootedPacked(nframes, base);
    } else {
      RangePacked(nframes, base, p - 1);
      AllocPacked(nframes, p - 1);
    }
  }

  lemma BootedPacked(nframes: nat, base: nat)
    requires base > 0
    ensures Booted(nframes, {}, base) == Packed(nframes, base)
  {
    assert {} + Marked(0, base, nframes) == Marked(0, base, nframes);
  }

  lemma PagesPacked(nframes: nat, k: nat, n: nat)
    requires 0 < k < nframes && 0 < n && k + n <= TOP
    ensures Found(Packed(nframes, k), n) == k
    ensures Pages(Packed(nframes, k), n) == Running(Packed(nframes, k + n))
  {
    hide LowestRun;
    FirstAt(nframes, k, n, nframes);
    PackedNext(nframes, k, n);
  }

  lemma PackedGood(nframes: nat, k: nat)
    requires 0 < k <= nframes && 16 <= nframes && k <= TOP
    ensures Good(Packed(nframes, k))
  {
    hide Bits;
    var s := Packed(nframes, k);
    assert InRun(0, 0, k);
    assert forall p :: p in s.at ==> InRun(p, 1, k - 1) && InRun(p, 0, k);
    assert Bits(nframes) >= nframes;
  }

  /** A run that hangs over, from boot: when paging_fini found all frames free and all but the last are
      handed out, two more pages are found there. Both get mapped, and only the first gets a bit. */
  lemma Overhang(nframes: nat, base: nat)
    requires 0xC0 <= base <= TOP - 0x100 && HeapStart(base) < nframes - 1 && nframes < TOP && nframes % 32 == 0
    ensures var n := nframes - 1 - HeapStart(base);
            var first, last, over := Packed(nframes, HeapStart(base)), Packed(nframes, nframes - 1), Packed(nframes, nframes + 1);
            && Finished(first, nframes, {}, base) && Legal(first, [AllocPages(n), AllocPages(2)])
            && After(first, [AllocPages(n)]) == Running(last)
            && Found(last, 2) == nframes - 1 && Pages(last, 2) == Running(over)
            && over.used == Marked(0, nframes, nframes) && nframes !in over.used && over.at[nframes] == nframes
  {
    hide LowestRun, Good, Found, Pages, AllocRange, Booted;
    var top := HeapStart(base);
    RangePacked(nframes, base, top);
    BootedPacked(nframes, base);
    PackedGood(nframes, base);
    var n := nframes - 1 - top;
    PagesPacked(nframes, top, n);
    PagesPacked(nframes, nframes - 1, 2);
    var es := [AllocPages(n), AllocPages(2)];
    assert es[1..] == [AllocPages(2)] && [AllocPages(2)][1..] == [] && [AllocPages(n)][1..] == [];
    Over(nframes);
  }

  lemma Over(nframes: nat)
    requires 0 < nframes
    ensures var over := Packed(nframes, nframes + 1);
            && over.used == Marked(0, nframes, nframes) && nframes !in over.used
            && nframes in over.at && over.at[nframes] == nframes
  {
    forall f: nat | f < nframes ensures f in Marked(0, nframes + 1, nframes) && f in Marked(0, nframes, nframes) {
      assert InRun(f, 0, nframes + 1) && InRun(f, 0, nframes);
    }
    assert InRun(nframes, 1, nframes);
  }
}
