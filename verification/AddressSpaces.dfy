/** The kernel's directory and the copies processes run on, once the heap is online. */
module AddressSpaces {
  import opened FrameModel
  import opened Frames
  import opened Paging
  import opened PagingClass
  import opened FrameBoot

  class Spaces {
    const mmu: Mmu
    ghost var dirs: set<PageDir>   // every directory copy_page_dir has made

    ghost predicate Valid()
      reads this, mmu, mmu.kernelDir, mmu.kernelDir.tables, mmu.kernelDir.phyTables, mmu.kernelDir.tables[..]
      reads mmu.bitmap.frames, dirs, set d | d in dirs :: d.tables
    {
      && mmu.Valid() && mmu.heapOnline && Populated(mmu.kernelDir.tables[..]) && Good(mmu.View())
      && mmu.kernelDir.phyAddr == mmu.kernelDir.phyTables && mmu.kernelDir !in dirs
      && (mmu.current != null ==> mmu.current == mmu.kernelDir || mmu.current in dirs)
      && forall d :: d in dirs ==> Shares(d)
    }

    /** `d` has the kernel's tables, by pointer, and loads the kernel's physical directory. */
    ghost predicate Shares(d: PageDir)
      requires mmu.Valid()
      reads mmu`plp, mmu`home, mmu.kernelDir.tables, mmu.kernelDir.phyTables, d, d.tables
    {
      && d.tables[..] == mmu.kernelDir.tables[..] && d.phyAddr == mmu.kernelDir.phyTables
      && d.tables != mmu.kernelDir.tables
      && d.tables as object != mmu.bitmap.frames && d.tables as object != mmu.kernelDir.phyTables
      && forall t :: 0 <= t < SIZE && mmu.kernelDir.tables[t] != null ==> d.tables as object != mmu.kernelDir.tables[t]
    }

    /** Where an address is in physical memory. */
    ghost function Physical(a: nat): nat
      requires mmu.Valid() && a < ADDRESSES
      reads mmu`plp, mmu`home, mmu.kernelDir.tables, mmu.kernelDir.phyTables, mmu.kernelDir.tables[..]
    {
      Translate(mmu.kernelDir.tables[..], a)
    }

    /** heap_install, right after paging_fini. */
    constructor (mmu: Mmu)
      requires mmu.Valid() && Populated(mmu.kernelDir.tables[..]) && Good(mmu.View())
      requires mmu.kernelDir.phyAddr == mmu.kernelDir.phyTables && mmu.current == mmu.kernelDir
      modifies mmu`heapOnline
      ensures Valid() && this.mmu == mmu && dirs == {} && mmu.View() == old(mmu.View())
    {
      this.mmu := mmu;
      dirs := {};
      new;
      mmu.heapOnline := true;
    }

    /** arch_sched_make_address_space. */
    method MakeAddressSpace() returns (d: PageDir)
      requires Valid()
      modifies this`dirs
      ensures Valid() && fresh(d) && dirs == old(dirs) + {d}
    {
      hide Good, Mmu.View, Wired;
      d := new PageDir.Copy(mmu.kernelDir);
      dirs := dirs + {d};
    }

    /** switch_page_dir: the new current directory, and what goes into cr3. */
    method Switch(d: PageDir) returns (cr3: array?<nat>)
      requires Valid() && (d in dirs || d == mmu.kernelDir)
      modifies mmu`current
      ensures Valid() && mmu.current == d && cr3 == mmu.kernelDir.phyTables
    {
      hide Good, Mmu.View, Wired;
      mmu.current := d;
      cr3 := d.phyAddr;
    }

    /** virtual_to_physical, in whichever directory is current. */
    method VirtualToPhysical(a: nat) returns (r: nat)
      requires Valid() && a < ADDRESSES && mmu.current != null
      ensures r == Physical(a)
    {
      hide Good, Mmu.View, Wired;
      var rem := a % PAGE;
      var f := a / PAGE;
      var t := f / SIZE;
      var i := f % SIZE;
      var table := mmu.current.tables[t];
      if table != null {
        r := table[i].frame * PAGE + rem;
      } else {
        r := 0;
      }
    }

    /** liballoc_alloc, on top of mm_alloc_pages. The pages it returns were free and translate to
        themselves; every other address is translated as before, in every directory. */
    method AllocPages(n: nat) returns (ok: bool, addr: nat)
      requires Valid() && Enabled(mmu.View(), Event.AllocPages(n))
      modifies mmu`plp, mmu`home, mmu.kernelDir.tables, mmu.kernelDir.phyTables, mmu.bitmap.frames, mmu.kernelDir.tables[..]
      ensures mmu.Valid() && (ok <==> Pages(old(mmu.View()), n).Running?)
      ensures ok ==> Valid() && mmu.View() == Pages(old(mmu.View()), n).state
      ensures mmu.kernelDir.tables[..] == old(mmu.kernelDir.tables[..])
      ensures ok && Found(old(mmu.View()), n) == mmu.bitmap.nframes ==>
                addr == 0xFFFF_F000 && forall a: nat :: a < ADDRESSES ==> Physical(a) == old(Physical(a))
      ensures ok && Found(old(mmu.View()), n) < mmu.bitmap.nframes ==>
                && addr == Found(old(mmu.View()), n) * PAGE && ClearRun(old(mmu.bitmap.Used()), addr / PAGE, n)
                && forall a: nat :: a < ADDRESSES ==>
                     Physical(a) == if addr <= a < addr + n * PAGE then a else old(Physical(a))
      // the pages are the kernel's alone; no other page's rights change
      ensures ok ==>
                var r := Found(old(mmu.View()), n);
                forall q: nat :: q < ALL ==>
                  if r < mmu.bitmap.nframes && InRun(q, r, n) then mmu.Granted(q, true, false)
                  else mmu.Entry(q) == old(mmu.Entry(q))
    {
      hide Good, Mmu.View, Mmu.Valid, Wired, Tables, Pages, Found, Filled, Enabled, Mmu.Entry, Mmu.Granted, EntryAt, InRun,
           Physical, Translate, Populated, ClearRun, Bitmap.Used, UsedOf, Of;
      mmu.ViewFacts(0);
      ghost var s := mmu.View();
      GoodZero(s);
      if Pages(s, n).Running? {
        PagesStep(s, n);
      }
      SamePhysical();
      var broken: bool;
      ok, broken, addr := mmu.MmAllocPages(n);
      if ok {
        assert Valid();
        SamePhysical();
        ghost var r := Found(s, n);
        forall a: nat | a < ADDRESSES
          ensures Physical(a) == if r < s.nframes && r * PAGE <= a < r * PAGE + n * PAGE then a else old(Physical(a))
        {
          InRunAddress(a, r, n);
        }
      }
    }

    /** alloc_frame on the entry of a page; other pages stay where they are. */
    method AllocFrame(page: nat, k: bool, w: bool) returns (ok: bool)
      requires Valid() && page < TOP
      modifies mmu`plp, mmu`home, mmu.kernelDir.tables, mmu.kernelDir.phyTables, mmu.bitmap.frames, mmu.kernelDir.tables[..]
      ensures mmu.Valid() && (ok <==> Alloc(old(mmu.View()), page).Running?)
      ensures ok ==> Valid() && mmu.View() == Alloc(old(mmu.View()), page).state && mmu.Granted(page, k, w)
      ensures ok ==> forall a: nat :: a < ADDRESSES && a / PAGE == page ==>
                page in mmu.View().at && Physical(a) == mmu.View().at[page] * PAGE + a % PAGE
      ensures forall a: nat :: a < ADDRESSES && a / PAGE != page ==> Physical(a) == old(Physical(a))
    {
      hide Good, Mmu.View, Wired, Alloc, EntryAt, Bitmap.Used, UsedOf, Physical, Of;
      SamePhysical();
      GoodZero(mmu.View());
      mmu.ViewFacts(page);
      AllocMaps(mmu.View(), page);
      if Alloc(mmu.View(), page).Running? {
        AllocGood(mmu.View(), page);
      }
      var _, t, i := mmu.GetPage(page * PAGE, false);
      assert mmu.IsEntry(t, i, page);
      ok := mmu.AllocFrame(t, i, k, w, page);
      SamePhysical();
      OfFrame();
    }

    /** free_frame on the entry of a page: the page is at frame 0 then, other pages stay where they are. */
    method FreeFrame(page: nat) returns (ok: bool)
      requires Valid() && page < TOP && Enabled(mmu.View(), Event.FreeFrame(page))
      modifies mmu`plp, mmu`home, mmu.kernelDir.tables, mmu.kernelDir.phyTables, mmu.bitmap.frames, mmu.kernelDir.tables[..]
      ensures mmu.Valid() && (ok <==> Free(old(mmu.View()), page).Running?)
      ensures ok ==> Valid() && mmu.View() == Free(old(mmu.View()), page).state
      ensures ok ==> forall a: nat :: a < ADDRESSES && a / PAGE == page ==> Physical(a) == a % PAGE
      ensures ok ==> mmu.Entry(page) == old(mmu.Entry(page)).(frame := 0)
      ensures forall a: nat :: a < ADDRESSES && a / PAGE != page ==> Physical(a) == old(Physical(a))
    {
      hide Good, Mmu.View, Wired, Free, EntryAt, Bitmap.Used, UsedOf, Physical, Of;
      SamePhysical();
      if Free(mmu.View(), page).Running? {
        FreeStep(mmu.View(), page);
      }
      var _, t, i := mmu.GetPage(page * PAGE, false);
      assert mmu.IsEntry(t, i, page);
      ok := mmu.FreeFrame(t, i, page);
      SamePhysical();
      OfFrame();
    }

    /** Address-space agreement: in every state, every directory made translates every address as the
        kernel's does, and so does the hardware, whichever directory was switched to. */
    lemma Agreement(d: PageDir, a: nat)
      requires Valid() && (d in dirs || d == mmu.kernelDir) && a < ADDRESSES
      ensures Tables(d.tables[..]) && Translate(d.tables[..], a) == Physical(a)
      ensures a < KHEAP_END ==> d.tables[a / PAGE / SIZE] != null
      ensures d.phyAddr != null && d.phyAddr.Length == SIZE
      ensures HardwareWalk(d.phyAddr[..], mmu.home, a) ==
              if mmu.Entry(a / PAGE).present then To(Physical(a)) else Fault
    {
      hide Good, Mmu.View, Wired, EntryAt, HardwareWalk, Translate;
      WalkIsTranslate(mmu.kernelDir.tables[..], mmu.kernelDir.phyTables[..], mmu.home, mmu.plp, a);
    }

    /** Whichever directory was switched to, user mode may do at an address exactly what its page allows. */
    lemma UserRights(d: PageDir, a: nat, write: bool)
      requires Valid() && (d in dirs || d == mmu.kernelDir) && a < ADDRESSES
      ensures d.phyAddr != null && d.phyAddr.Length == SIZE && a / PAGE < ALL
      ensures UserMay(d.phyAddr[..], mmu.home, a, write) <==>
              var e := mmu.Entry(a / PAGE); e.present && e.user && (write ==> e.rw)
    {
      hide Good, Mmu.View, Wired, EntryAt, UserMay;
      UserMayIs(mmu.kernelDir.tables[..], mmu.kernelDir.phyTables[..], mmu.home, mmu.plp, a, write);
    }

    lemma SamePhysical()
      requires mmu.Valid() && Populated(mmu.kernelDir.tables[..])
      ensures forall a: nat :: a < ADDRESSES ==> a / PAGE < ALL && Physical(a) == Of(mmu.Entry(a / PAGE), a)
    {
      hide Good, Mmu.View, Wired, EntryAt;
    }
  }

  /** The physical address of `a`, whose page has entry `e`, when the tables are those below KHEAP_END. */
  ghost function Of(e: Pte, a: nat): nat {
    if a / PAGE < TOP then e.frame * PAGE + a % PAGE else 0
  }

  lemma OfFrame()
    ensures forall e, a: nat :: a / PAGE < TOP ==> Of(e, a) == e.frame * PAGE + a % PAGE
  {
  }

  lemma PagesStep(s: State, n: nat)
    requires Good(s) && Enabled(s, Event.AllocPages(n)) && Pages(s, n).Running?
    ensures Good(Pages(s, n).state)
    ensures var r := Found(s, n);
            r < s.nframes ==> r + n <= TOP && ClearRun(s.used, r, n)
  {
    hide LowestRun, Bits, Good;
    StepGood(s, Event.AllocPages(n));
  }

  lemma FreeStep(s: State, page: nat)
    requires Good(s) && Free(s, page).Running?
    ensures Good(Free(s, page).state)
  {
    FreeGood(s, page);
  }

  lemma InRunAddress(a: nat, r: nat, n: nat)
    ensures InRun(a / PAGE, r, n) <==> r * PAGE <= a < r * PAGE + n * PAGE
    ensures a / PAGE < TOP ==> Of(Filled(true, false, a / PAGE), a) == a
    ensures InRun(a / PAGE, r, n) && r + n <= TOP ==> a / PAGE < TOP
  {
  }

  /** The system from boot on: nothing but memory is given, and paging_fini may find too few frames. Then
      a process directory is made, a page allocated, and the directory loaded. */
  method Boot(nframes: nat, plp: nat, memory: seq<bv32>, page: nat) returns (ok: bool, system: Spaces?)
    requires 16 <= nframes <= MAX_FRAMES && KERNEL_BASE <= plp <= MAX_IMAGE && |memory| == nframes / 16 && page < TOP
    ensures ok ==> system != null && fresh(system) && system.Valid() && page in system.mmu.View().at
    ensures ok ==>
              var m := system.mmu;
              && m.bitmap.nframes == nframes && fresh(m) && fresh(m.kernelDir.tables) && fresh(m.kernelDir.phyTables)
              && fresh(m.bitmap.frames)
              && forall t :: 0 <= t < m.kernelDir.tables.Length && m.kernelDir.tables[t] != null ==> fresh(m.kernelDir.tables[t])
    ensures ok ==> forall d, a: nat :: d in system.dirs && a < ADDRESSES && Tables(d.tables[..]) ==>
              Translate(d.tables[..], a) == system.Physical(a)
  {
    hide Mmu.Valid, Good, Mmu.View, Wired, Alloc, EntryAt, AllocRange, Booted, Leftover, Spaces.Physical, Mmu.Guarded,
         Mmu.HeapMapped, HeapStart, Mmu.Entry;
    system := null;
    var mmu := new Mmu(nframes, plp, memory);
    ghost var base, top;
    ok, base, top := mmu.PagingFini();
    if !ok {
      return;
    }
    system := new Spaces(mmu);
    var d := system.MakeAddressSpace();
    AllocMaps(mmu.View(), page);
    ok := system.AllocFrame(page, true, true);
    if ok {
      var _ := system.Switch(d);
      forall d, a: nat | d in system.dirs && a < ADDRESSES && Tables(d.tables[..])
        ensures Translate(d.tables[..], a) == system.Physical(a)
      {
        system.Agreement(d, a);
      }
    }
  }

  lemma AllocMaps(s: State, page: nat)
    ensures Alloc(s, page).Running? ==> page in Alloc(s, page).state.at
  {
  }

  /** Users can reach exactly the VGA pages, to read and to write. */
  ghost predicate OnlyVga(m: Mmu)
    requires m.Valid()
    reads m`plp, m`home, m.kernelDir.tables, m.kernelDir.phyTables, m.kernelDir.tables[..]
  {
    forall q: nat :: q < ALL ==>
      var e := m.Entry(q);
      && (e.present && e.user <==> 0xB8 <= q < 0xC0)
      && (e.present && e.user && e.rw <==> 0xB8 <= q < 0xC0)
  }

  lemma GuardedVga(m: Mmu, used: set<nat>, base: nat, top: nat)
    requires m.Valid() && 0 < base <= TOP - 0x100 && top == HeapStart(base)
    requires m.HeapMapped(base, top, TOP, Booted(m.bitmap.nframes, used, base)) && m.Guarded()
    ensures OnlyVga(m) && 0xC0 <= top && Settled(m.View(), top) && m.View().nframes == m.bitmap.nframes
  {
    hide Mmu.Valid, Mmu.View, Mmu.Entry, Good, AllocRange, Booted, Settled;
    HasFinished(m, used, base);
    RangeSettled(m.bitmap.nframes, used, base, top);
    m.SearchBound();
  }

  /** The pages a run hands out lie behind the VGA pages. */
  lemma RunBehind(s: State, n: nat, top: nat)
    requires Good(s) && Settled(s, top) && 0xC0 <= top && Enabled(s, Event.AllocPages(n))
    ensures forall q :: Found(s, n) < s.nframes && InRun(q, Found(s, n), n) ==> 0xC0 <= q
    ensures Pages(s, n).Running? ==> Settled(Pages(s, n).state, top) && Pages(s, n).state.nframes == s.nframes
  {
    hide Good, LowestRun, Bits;
    StepSettled(s, Event.AllocPages(n), top);
    var r := Found(s, n);
    if r < s.nframes && n > 0 {
      assert InRun(r, r, n) && r !in s.used;
    }
  }

  lemma AllocEnabled(s: State, n: nat)
    requires s.nframes + n <= Bits(s.nframes)
    ensures Enabled(s, Event.AllocPages(n))
  {
  }

  /** From boot on, whatever runs of pages are allocated, in whatever directory: user mode can reach exactly
      the VGA pages. */
  method BootAndAllocate(nframes: nat, plp: nat, memory: seq<bv32>, ns: seq<nat>) returns (ok: bool, system: Spaces?)
    requires 16 <= nframes <= MAX_FRAMES && KERNEL_BASE <= plp <= MAX_IMAGE && |memory| == nframes / 16
    requires forall n :: n in ns ==> nframes + n <= Bits(nframes)
    ensures ok ==> system != null && fresh(system) && system.Valid() && system.dirs != {}
    ensures ok ==> forall d, a: nat, write :: d in system.dirs && a < ADDRESSES ==> VgaFor(system.mmu, d, a, write)
  {
    hide Mmu.Valid, Good, Mmu.View, Wired, Alloc, EntryAt, AllocRange, Booted, Leftover, Spaces.Physical, OnlyVga, Mmu.Guarded,
         Mmu.HeapMapped, Settled, UserMay, Found, Bits, HeapStart;
    system := null;
    var mmu := new Mmu(nframes, plp, memory);
    ghost var used := mmu.bitmap.Used();
    ghost var base, top;
    ok, base, top := mmu.PagingFini();
    if !ok {
      return;
    }
    GuardedVga(mmu, used, base, top);
    system := new Spaces(mmu);
    var d := system.MakeAddressSpace();
    for i := 0 to |ns|
      invariant system.Valid() && system.dirs == {d} && OnlyVga(mmu) && Settled(mmu.View(), top) && mmu.View().nframes == nframes
      invariant forall t :: 0 <= t < mmu.kernelDir.tables.Length && mmu.kernelDir.tables[t] != null ==>
                  fresh(mmu.kernelDir.tables[t])
    {
      assert ns[i] in ns;
      ok := AllocateGuarded(system, ns[i], top);
      if !ok {
        return;
      }
    }
    VgaEverywhere(system);
    assert d in system.dirs;
  }

  /** On directory `d`, user mode gets at address `a` exactly if it is in a VGA page. */
  ghost predicate VgaFor(m: Mmu, d: PageDir, a: nat, write: bool)
    requires a < ADDRESSES
    reads d, d.phyAddr, m`home, set x | x in m.home :: m.home[x]
  {
    && d.phyAddr != null && d.phyAddr.Length == SIZE
    && (UserMay(d.phyAddr[..], m.home, a, write) <==> 0xB8 <= a / PAGE < 0xC0)
  }

  lemma VgaEverywhere(sp: Spaces)
    requires sp.Valid() && OnlyVga(sp.mmu)
    ensures forall d, a: nat, write :: d in sp.dirs && a < ADDRESSES ==> VgaFor(sp.mmu, d, a, write)
  {
    hide Mmu.Valid, Mmu.Entry, Mmu.View, Good, Wired, OnlyVga, UserMay;
    forall d, a: nat, write | d in sp.dirs && a < ADDRESSES ensures VgaFor(sp.mmu, d, a, write) {
      sp.UserRights(d, a, write);
      VgaAt(sp.mmu, a / PAGE, write);
    }
  }

  lemma VgaAt(m: Mmu, q: nat, write: bool)
    requires m.Valid() && OnlyVga(m) && q < ALL
    ensures var e := m.Entry(q); e.present && e.user && (write ==> e.rw) <==> 0xB8 <= q < 0xC0
  {
    hide Mmu.Valid, Mmu.Entry;
  }

  /** A run of pages leaves users with the VGA pages. */
  method AllocateGuarded(sp: Spaces, n: nat, ghost top: nat) returns (ok: bool)
    requires sp.Valid() && OnlyVga(sp.mmu) && Settled(sp.mmu.View(), top) && 0xC0 <= top
    requires sp.mmu.View().nframes + n <= Bits(sp.mmu.View().nframes)
    modifies sp.mmu`plp, sp.mmu`home, sp.mmu.kernelDir.tables, sp.mmu.kernelDir.phyTables, sp.mmu.bitmap.frames,
             sp.mmu.kernelDir.tables[..]
    ensures ok ==>
              && sp.Valid() && OnlyVga(sp.mmu) && Settled(sp.mmu.View(), top)
              && sp.mmu.View().nframes == old(sp.mmu.View().nframes)
    ensures sp.mmu.kernelDir.tables[..] == old(sp.mmu.kernelDir.tables[..])
  {
    hide Mmu.Valid, Good, Mmu.View, Mmu.Entry, Wired, EntryAt, Spaces.Physical, Settled, Found, Pages, Bits, Enabled, ClearRun,
         Spaces.Valid;
    SpacesGood(sp);
    AllocEnabled(sp.mmu.View(), n);
    RunBehind(sp.mmu.View(), n, top);
    var addr;
    ok, addr := sp.AllocPages(n);
  }

  lemma SpacesGood(sp: Spaces)
    requires sp.Valid()
    ensures sp.mmu.Valid() && Good(sp.mmu.View()) && sp.mmu.View().nframes == sp.mmu.bitmap.nframes
  {
    hide Good;
    sp.mmu.SearchBound();
  }
}
