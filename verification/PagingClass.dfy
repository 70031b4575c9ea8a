/** mm/page.c and mm_alloc_pages on the kernel's directory, the bitmap and the bump pointer. */
module PagingClass {
  import opened FrameModel
  import opened Frames
  import opened Paging

  /** The entry that alloc_frame and alloc_dma_frame leave behind. */
  function Filled(k: bool, w: bool, frame: nat): Pte { Pte(true, w, !k, frame) }

  class Mmu {
    const bitmap: Bitmap
    const kernelDir: PageDir
    var plp: nat                // where __kmalloc takes memory from before the heap is online
    var heapOnline: bool
    var current: PageDir?       // current_directory
    ghost var home: map<nat, array<Pte>>

    ghost predicate Valid()
      reads this`plp, this`home, kernelDir.tables, kernelDir.phyTables
    {
      && bitmap.Valid() && 16 <= bitmap.nframes && KERNEL_BASE <= plp
      && Tables(kernelDir.tables[..]) && kernelDir.phyTables.Length == SIZE
      && Wired(kernelDir.tables[..], kernelDir.phyTables[..], home, plp)
      && kernelDir.tables as object != bitmap.frames && kernelDir.phyTables as object != bitmap.frames
      && forall t :: 0 <= t < SIZE && kernelDir.tables[t] != null ==> Apart(kernelDir.tables[t])
    }

    /** No table shares memory with the directory or the bitmap. */
    ghost predicate Apart(t: array<Pte>) {
      t as object != kernelDir.tables && t as object != kernelDir.phyTables && t as object != bitmap.frames
    }

    ghost function Entry(p: nat): Pte
      requires Valid() && p < ALL
      reads this`plp, this`home, kernelDir.tables, kernelDir.phyTables, kernelDir.tables[..]
    {
      EntryAt(kernelDir.tables[..], p)
    }

    /** Page `p` is present, for users only if it is not the kernel's, for writing only if `w`. */
    ghost predicate Granted(p: nat, k: bool, w: bool)
      requires Valid() && p < ALL
      reads this`plp, this`home, kernelDir.tables, kernelDir.phyTables, kernelDir.tables[..]
    {
      Entry(p).present && (Entry(p).user <==> !k) && (Entry(p).rw <==> w)
    }

    /** The marked frames and the mapped pages, as a value. */
    ghost function View(): State
      requires Valid()
      reads this`plp, this`home, kernelDir.tables, kernelDir.phyTables, kernelDir.tables[..], bitmap.frames
    {
      State(bitmap.nframes, bitmap.Used(), Mapped(kernelDir.tables[..]))
    }

    /** Entry `i` of `t` is the entry of page `p`. */
    ghost predicate IsEntry(t: array<Pte>, i: nat, p: nat)
      requires Valid()
      reads this`plp, this`home, kernelDir.tables, kernelDir.phyTables
    {
      p < ALL && kernelDir.tables[p / SIZE] == t && i == p % SIZE
    }

    /** set_nframes: the bitmap, in memory that held `memory`, and a directory of zeros. `plp` starts behind
        the kernel image. */
    constructor (nframes: nat, plp: nat, memory: seq<bv32>)
      requires 16 <= nframes <= MAX_FRAMES && KERNEL_BASE <= plp && |memory| == nframes / 16
      ensures Valid() && bitmap.nframes == nframes && this.plp == plp && !heapOnline
      ensures fresh(bitmap) && fresh(bitmap.frames)
      ensures fresh(kernelDir) && fresh(kernelDir.tables) && fresh(kernelDir.phyTables)
      ensures View() == State(nframes, Leftover(nframes, memory), map[])
      ensures forall t :: 0 <= t < SIZE ==> kernelDir.tables[t] == null
    {
      hide UsedOf, Bits, Leftover;
      bitmap := new Bitmap(nframes, memory);
      kernelDir := new PageDir();
      this.plp := plp;
      heapOnline := false;
      current := null;
      home := map[];
    }

    /** kvmalloc_p before the heap is online. */
    method KVMalloc(s: nat) returns (phys: nat)
      requires KERNEL_BASE <= plp
      modifies this`plp
      ensures phys % PAGE == 0 && old(plp) < phys <= old(plp) + PAGE && plp == phys + s
    {
      if plp / PAGE != 0 {
        plp := plp / PAGE * PAGE;
        plp := plp + PAGE;
      }
      phys := plp;
      plp := plp + s;
    }

    /** get_page in the kernel's directory. `ok` is false where kvmalloc_p panics because the heap is
        online; `t` is null where it returns NULL. */
    method GetPage(a: nat, make: bool) returns (ok: bool, t: array?<Pte>, i: nat)
      requires Valid() && a < ADDRESSES
      modifies this`plp, this`home, kernelDir.tables, kernelDir.phyTables
      ensures Valid() && old(plp) <= plp
      ensures ok <==> old(kernelDir.tables[a / PAGE / SIZE]) != null || !make || !heapOnline
      ensures i == a / PAGE % SIZE
      ensures ok ==> t == kernelDir.tables[a / PAGE / SIZE]
      ensures ok && make ==> t != null && t.Length == SIZE && IsEntry(t, i, a / PAGE)
      ensures forall u :: 0 <= u < SIZE && u != a / PAGE / SIZE ==> kernelDir.tables[u] == old(kernelDir.tables[u])
      ensures old(kernelDir.tables[a / PAGE / SIZE]) != null || !ok || !make ==>
                kernelDir.tables[..] == old(kernelDir.tables[..]) && plp == old(plp) && home == old(home)
      ensures old(kernelDir.tables[a / PAGE / SIZE]) == null && ok && make ==>
                plp <= old(plp) + 2 * PAGE && fresh(t) && plp % PAGE == 0
      ensures View() == old(View()) && forall p: nat :: p < ALL ==> Entry(p) == old(Entry(p))
    {
      hide Wired, EntryAt, UsedOf, Mapped;
      var addr := a / PAGE;
      var tindex := addr / SIZE;
      i := addr % SIZE;
      ok := true;
      t := kernelDir.tables[tindex];
      if t == null && make {
        if heapOnline {
          return false, null, i;
        }
        t := MakeTable(tindex);
      }
    }

    /** The part of get_page that creates a table. */
    method MakeTable(tindex: nat) returns (t: array<Pte>)
      requires Valid() && tindex < SIZE && kernelDir.tables[tindex] == null
      modifies this`plp, this`home, kernelDir.tables, kernelDir.phyTables
      ensures Valid() && fresh(t) && t.Length == SIZE && kernelDir.tables[..] == old(kernelDir.tables[..])[tindex := t]
      ensures old(plp) <= plp <= old(plp) + 2 * PAGE && plp % PAGE == 0
      ensures View() == old(View()) && forall p: nat :: p < ALL ==> Entry(p) == old(Entry(p))
    {
      hide Wired, UsedOf, Bits, Mapped, EntryAt;
      ghost var plp0 := plp;
      var tmp := KVMalloc(0x1000);
      t := new Pte[SIZE](_ => BLANK);
      WiredUp(kernelDir.tables[..], kernelDir.phyTables[..], home, plp0, plp);
      Install(tindex, t, tmp, plp0);
    }

    /** A blank table is wired up, by pointer and by physical address. */
    method Install(tindex: nat, t: array<Pte>, tmp: nat, ghost plp0: nat)
      requires Valid() && tindex < SIZE && kernelDir.tables[tindex] == null
      requires t.Length == SIZE && Apart(t) && t !in kernelDir.tables[..] && forall i :: 0 <= i < SIZE ==> t[i] == BLANK
      requires tmp % PAGE == 0 && plp0 <= tmp && plp == tmp + PAGE
      requires Wired(kernelDir.tables[..], kernelDir.phyTables[..], home, plp0)
      modifies this`home, kernelDir.tables, kernelDir.phyTables
      ensures Valid() && kernelDir.tables[..] == old(kernelDir.tables[..])[tindex := t]
      ensures View() == old(View()) && forall p: nat :: p < ALL ==> Entry(p) == old(Entry(p))
    {
      hide Wired, UsedOf, Bits, Mapped;
      ghost var at, ts, phy := View().at, kernelDir.tables[..], kernelDir.phyTables[..];
      MappedFacts(ts);
      WiredGrows(ts, phy, home, plp0, tindex, tmp, t, plp);
      kernelDir.tables[tindex] := t;
      var e: nat := tmp + 7;
      kernelDir.phyTables[tindex] := e;
      home := home[tmp := t];
      assert kernelDir.tables[..] == ts[tindex := t] && kernelDir.phyTables[..] == phy[tindex := e];
      Same(kernelDir.tables[..], at);
    }

    /** Write the entry of page `p`. */
    method SetEntry(t: array<Pte>, i: nat, e: Pte, ghost p: nat)
      requires Valid() && IsEntry(t, i, p)
      modifies t
      ensures Valid() && IsEntry(t, i, p) && bitmap.Used() == old(bitmap.Used())
      ensures Entry(p) == t[i] == e && forall q: nat :: q < ALL && q != p ==> Entry(q) == old(Entry(q))
      ensures View().at == Put(old(View().at), p, e.frame)
    {
      hide Wired, UsedOf;
      ghost var at := View().at;
      t[i] := e;
      Same(kernelDir.tables[..], Put(at, p, e.frame));
    }

    /** set_frame and clear_frame leave the tables alone. */
    method Mark(a: nat, set': bool)
      requires Valid() && a / PAGE < Bits(bitmap.nframes)
      modifies bitmap.frames
      ensures Valid() && View().at == old(View().at)
      ensures bitmap.Used() == if set' then old(bitmap.Used()) + {a / PAGE} else old(bitmap.Used()) - {a / PAGE}
      ensures forall q: nat :: q < ALL ==> Entry(q) == old(Entry(q))
    {
      hide Wired, UsedOf, Bits;
      ghost var at := View().at;
      if set' {
        bitmap.SetFrame(a);
      } else {
        bitmap.ClearFrame(a);
      }
      Same(kernelDir.tables[..], at);
    }

    /** alloc_dma_frame on the entry of page `p`. */
    method AllocDmaFrame(t: array<Pte>, i: nat, k: bool, w: bool, a: nat, ghost p: nat)
      requires Valid() && IsEntry(t, i, p) && a < ADDRESSES
      modifies t, bitmap.frames
      ensures Valid()
      ensures bitmap.Used() == old(bitmap.Used()) + if a / PAGE < bitmap.nframes then {a / PAGE} else {}
      ensures View().at == Put(old(View().at), p, a / PAGE)
      ensures forall q: nat :: q < ALL ==> Entry(q) == if q == p then Filled(k, w, a / PAGE) else old(Entry(q))
      ensures Granted(p, k, w)
    {
      hide Tables, Wired, UsedOf, EntryAt, Mapped, Bits, Put;
      SetEntry(t, i, Filled(k, w, a / PAGE), p);
      if a < bitmap.nframes * 4 * 0x400 {
        Mark(a, true);
      }
    }

    /** alloc_frame on the entry of page `p`; `ok` is false where first_frame panics. Since frame 0 is
        reserved, the entry has a frame when it calls itself. */
    method AllocFrame(t: array<Pte>, i: nat, k: bool, w: bool, ghost p: nat) returns (ok: bool)
      requires Valid() && IsEntry(t, i, p) && p < TOP && 0 in bitmap.Used()
      modifies t, bitmap.frames
      ensures Valid()
      ensures ok <==> Alloc(old(View()), p).Running?
      ensures ok ==> View() == Alloc(old(View()), p).state
      ensures ok ==> Entry(p) == Filled(k, w, View().at[p]) && Granted(p, k, w)
      ensures forall q: nat :: q < ALL && q != p ==> Entry(q) == old(Entry(q))
      decreases if t[i].frame == 0 then 1 else 0
    {
      hide Tables, Wired, UsedOf, Mapped, Bits, Counted, LowestRun, Valid, Entry;
      MappedEntry(t, i, p);
      if t[i].frame != 0 {
        SetEntry(t, i, Filled(k, w, t[i].frame), p);
        ok := true;
      } else {
        var index: nat;
        ok, index := bitmap.FirstFrame();
        if !ok {
          return;
        }
        CountedInside(bitmap.nframes, index);
        Mark(index * PAGE, true);
        SetEntry(t, i, t[i].(frame := index), p);
        ok := AllocFrame(t, i, k, w, p);
      }
    }

    /** free_frame on the entry of page `p`; `ok` is false where it panics. The entry stays present. */
    method FreeFrame(t: array<Pte>, i: nat, ghost p: nat) returns (ok: bool)
      requires Valid() && IsEntry(t, i, p) && p < TOP && Enabled(View(), Event.FreeFrame(p))
      modifies t, bitmap.frames
      ensures Valid()
      ensures ok <==> Free(old(View()), p).Running?
      ensures ok ==> View() == Free(old(View()), p).state
      ensures ok ==> Entry(p) == old(Entry(p)).(frame := 0)
      ensures forall q: nat :: q < ALL && q != p ==> Entry(q) == old(Entry(q))
    {
      hide Tables, Wired, UsedOf, Mapped, Bits, Counted, LowestRun, Valid, Entry;
      MappedEntry(t, i, p);
      if t[i].frame == 0 {
        return false;
      }
      Mark(t[i].frame * PAGE, false);
      SetEntry(t, i, t[i].(frame := 0), p);
      ok := true;
    }

    /** `alloc_dma_frame(get_page(a, make, kernel_dir), k, w, a)`. */
    method MapDma(a: nat, make: bool, k: bool, w: bool) returns (ok: bool)
      requires Valid() && a < ADDRESSES && (make || kernelDir.tables[a / PAGE / SIZE] != null)
      modifies this`plp, this`home, kernelDir.tables, kernelDir.phyTables, bitmap.frames, kernelDir.tables[..]
      ensures Valid() && old(plp) <= plp
      ensures ok <==> old(kernelDir.tables[a / PAGE / SIZE]) != null || !heapOnline
      ensures !ok ==> kernelDir.tables[..] == old(kernelDir.tables[..])
      ensures forall u :: 0 <= u < SIZE && u != a / PAGE / SIZE ==> kernelDir.tables[u] == old(kernelDir.tables[u])
      ensures old(kernelDir.tables[a / PAGE / SIZE]) != null ==>
                kernelDir.tables[..] == old(kernelDir.tables[..]) && plp == old(plp)
      ensures old(kernelDir.tables[a / PAGE / SIZE]) == null && ok ==>
                && kernelDir.tables[a / PAGE / SIZE] != null && fresh(kernelDir.tables[a / PAGE / SIZE])
                && plp <= old(plp) + 2 * PAGE && plp % PAGE == 0
      ensures ok ==>
                && bitmap.Used() == old(bitmap.Used()) + (if a / PAGE < bitmap.nframes then {a / PAGE} else {})
                && View().at == Put(old(View().at), a / PAGE, a / PAGE)
      ensures ok ==> forall q: nat :: q < ALL ==>
                Entry(q) == if q == a / PAGE then Filled(k, w, q) else old(Entry(q))
    {
      hide Wired, EntryAt, UsedOf, Mapped, Put, Filled;
      var t: array?<Pte>, i: nat;
      ok, t, i := GetPage(a, make);
      if ok {
        AllocDmaFrame(t, i, k, w, a, a / PAGE);
      }
    }

    /** mm_alloc_pages. `ok` is false where get_page panics for want of a table, `broken` is set where its
        own check panics. A failed search yields the address the shifted failure value wraps to. */
    method MmAllocPages(n: nat) returns (ok: bool, broken: bool, addr: nat)
      requires Valid() && heapOnline && Populated(kernelDir.tables[..]) && 0 in bitmap.Used()
      requires Enabled(View(), AllocPages(n))
      modifies this`plp, this`home, kernelDir.tables, kernelDir.phyTables, bitmap.frames, kernelDir.tables[..]
      ensures Valid() && kernelDir.tables[..] == old(kernelDir.tables[..])
      ensures !broken && (ok <==> Pages(old(View()), n).Running?)
      ensures ok ==> View() == Pages(old(View()), n).state
      ensures ok ==>
                var r := Found(old(View()), n);
                && addr == (if r == bitmap.nframes then 0xFFFF_F000 else r * PAGE)
                && forall q: nat :: q < ALL ==>
                     Entry(q) == if r < bitmap.nframes && InRun(q, r, n) then Filled(true, false, q) else old(Entry(q))
      // the pages handed out are the kernel's, read only, and no other page's rights change
      ensures ok ==>
                var r := Found(old(View()), n);
                forall q: nat :: q < ALL ==>
                  if r < bitmap.nframes && InRun(q, r, n) then Granted(q, true, false) && Entry(q).frame == q
                  else Entry(q) == old(Entry(q))
    {
      hide Valid, Entry, View, EntryAt, Tables, Wired, Populated, UsedOf, LowestRun, Found, Pages, Taken, Marked, Identity,
           InRun, Enabled, Put, Filled, Mapped, ClearRun, Bits, Granted;
      ghost var s := View();
      ghost var r := Found(s, n);
      SearchFacts(n);
      ViewFacts(0);
      NoneYet(s, r);
      var first := bitmap.FirstNFrames(n, _ => false);
      addr := first * PAGE % ADDRESSES;
      var end := (addr + n * PAGE) % ADDRESSES;
      RunAddresses(first, n);
      var i := addr;
      ghost var j: nat := 0;
      while i < end
        invariant j <= n && i == addr + j * PAGE && (j > 0 ==> r + j <= TOP) && (first == NO_FRAME ==> j == 0)
        invariant Valid() && kernelDir.tables[..] == old(kernelDir.tables[..])
        invariant View() == Taken(s, r, j)
        invariant forall q: nat :: q < ALL ==> Entry(q) == if InRun(q, r, j) then Filled(true, false, q) else old(Entry(q))
      {
        RunNext(s, n, j);
        ViewFacts(r + j);
        assert i / PAGE == r + j;
        var set' := bitmap.TestFrame(i);
        if set' {
          return false, true, addr;
        }
        ok := MapDma(i, true, true, false);
        if !ok {
          PagesPanics(s, n);
          return false, false, addr;
        }
        ViewFacts(r + j);
        j := j + 1;
        i := i + PAGE;
      }
      PagesRuns(s, n);
      KernelsOwn();
      return true, false, addr;
    }

    lemma KernelsOwn()
      requires Valid()
      ensures forall q: nat :: q < ALL && Entry(q) == Filled(true, false, q) ==> Granted(q, true, false) && Entry(q).frame == q
    {
      hide Valid, Entry;
    }

    lemma SearchFacts(n: nat)
      requires Valid() && Enabled(View(), AllocPages(n))
      ensures bitmap.Valid() && kernelDir.tables.Length == SIZE && bitmap.nframes + n <= Bits(bitmap.nframes) <= ALL
      ensures var r := Found(View(), n);
              && r == LowestRun(bitmap.Used(), n, 0, bitmap.nframes) && r <= bitmap.nframes <= MAX_FRAMES
              && View().nframes == bitmap.nframes && (n == 0 ==> r == 0)
    {
      hide Wired, EntryAt, UsedOf, Mapped;
    }

    lemma SearchBound()
      requires Valid()
      ensures View().nframes == bitmap.nframes <= MAX_FRAMES
    {
      hide Wired, EntryAt, UsedOf, Mapped;
    }

    lemma ViewFacts(p: nat)
      requires Valid()
      ensures bitmap.Valid() && 16 <= bitmap.nframes && kernelDir.tables.Length == SIZE && View().used == bitmap.Used()
      ensures View() == State(bitmap.nframes, bitmap.Used(), View().at)
      ensures p < ALL && Populated(kernelDir.tables[..]) ==> (kernelDir.tables[p / SIZE] != null <==> p < TOP)
    {
      hide Wired, EntryAt, UsedOf, Mapped;
    }

    // -------------------------------------------------------------- paging_fini

    /** Pages 1 to `b` are mapped to themselves, those of the VGA range up to `v` for users to write. */
    ghost predicate SelfMapped(b: nat, v: nat, used: set<nat>)
      requires Valid()
      reads this`plp, this`home, kernelDir.tables, kernelDir.phyTables, kernelDir.tables[..], bitmap.frames
    {
      && 1 <= b <= TOP && v <= b && plp % PAGE == 0
      && (forall t: nat :: t < SIZE ==> (kernelDir.tables[t] != null <==> t < Reached(b)))
      && (forall q: nat :: q < ALL ==> Entry(q) == SelfEntry(q, b, v))
      && View() == State(bitmap.nframes, used + Marked(0, b, bitmap.nframes), Identity(1, b - 1))
    }

    /** One round of the identity loops: page `b`. */
    method MapSelf(b: nat, ghost used: set<nat>)
      requires Valid() && !heapOnline && SelfMapped(b, 0, used) && b < TOP
      modifies this`plp, this`home, kernelDir.tables, kernelDir.phyTables, bitmap.frames, kernelDir.tables[..]
      ensures Valid() && SelfMapped(b + 1, 0, used)
      ensures forall t :: 0 <= t < kernelDir.tables.Length && kernelDir.tables[t] != null ==>
                kernelDir.tables[t] == old(kernelDir.tables[t]) || fresh(kernelDir.tables[t])
      ensures old(plp) <= plp <= old(plp) + 2 * PAGE * (Reached(b + 1) - Reached(b))
    {
      hide Valid, Entry, EntryAt, Tables, Wired, View, UsedOf, Mapped, Filled, Put, Bits, Marked, Identity, InRun, SelfEntry;
      ViewFacts(b);
      ReachedNext(b);
      SelfNext(bitmap.nframes, used, b);
      var ok := MapDma(b * PAGE, true, true, false);
      ViewFacts(b);
    }

    /** The first access creates the first table; frame 0 is reserved. */
    method ReserveZero()
      requires Valid() && !heapOnline && forall t :: 0 <= t < SIZE ==> kernelDir.tables[t] == null
      modifies this`plp, this`home, kernelDir.tables, kernelDir.phyTables, bitmap.frames
      ensures Valid() && SelfMapped(1, 0, old(bitmap.Used()))
      ensures forall t :: 0 <= t < kernelDir.tables.Length && kernelDir.tables[t] != null ==> fresh(kernelDir.tables[t])
      ensures old(plp) <= plp <= old(plp) + 2 * PAGE
    {
      hide Wired, EntryAt, UsedOf, Mapped, Marked;
      ghost var used := bitmap.Used();
      FirstState(bitmap.nframes, used, View().at);
      NoTables(kernelDir.tables[..]);
      var ok, t, i := GetPage(0, true);
      MappedEntry(t, i, 0);
      SetEntry(t, i, t[i].(present := false), 0);
      Mark(0, true);
      ViewFacts(0);
      assert View() == State(bitmap.nframes, used + Marked(0, 1, bitmap.nframes), Identity(1, 0));
      assert forall q: nat :: q < ALL ==> Entry(q) == SelfEntry(q, 1, 0);
    }

    /** One round of the VGA loop: page `v` again, for users. */
    method MapVga(v: nat, ghost b: nat, ghost used: set<nat>)
      requires Valid() && !heapOnline && SelfMapped(b, v, used) && VGA <= v < b
      modifies this`plp, this`home, kernelDir.tables, kernelDir.phyTables, bitmap.frames, kernelDir.tables[..]
      ensures Valid() && SelfMapped(b, v + 1, used)
      ensures kernelDir.tables[..] == old(kernelDir.tables[..]) && plp == old(plp)
    {
      hide Valid, Entry, EntryAt, Tables, Wired, View, UsedOf, Mapped, Filled, Put, Bits, Marked, Identity, InRun, SelfEntry;
      ViewFacts(v);
      ReachedNext(v);
      SelfAgain(bitmap.nframes, used, b, v);
      var ok := MapDma(v * PAGE, false, false, true);
      ViewFacts(v);
      assert ok;
      assert View() == State(bitmap.nframes, used + Marked(0, b, bitmap.nframes), Identity(1, b - 1));
      forall q: nat | q < ALL ensures Entry(q) == SelfEntry(q, b, v + 1) {
        assert old(Entry(q)) == SelfEntry(q, b, v);
      }
    }

    /** Pages `b` to `p` are mapped to free frames, tables exist up to page `e`, and the rest is blank. */
    ghost predicate HeapMapped(b: nat, p: nat, e: nat, s: State)
      requires Valid()
      reads this`plp, this`home, kernelDir.tables, kernelDir.phyTables, kernelDir.tables[..], bitmap.frames
    {
      && 0xC0 <= b <= p <= e <= TOP
      && (forall t: nat :: t < SIZE ==> (kernelDir.tables[t] != null <==> t < Reached(e)))
      && (forall q: nat :: q < b ==> Entry(q) == SelfEntry(q, b, 0xC0))
      && (forall q: nat :: b <= q < p ==> Granted(q, true, false))
      && (forall q: nat :: p <= q < ALL ==> Entry(q) == BLANK)
      && Good(s) && AllocRange(s, b, p) == Running(View()) && Good(View())
    }

    /** The mapped pages are present, and users can reach and write the VGA pages, and nothing else. */
    ghost predicate Guarded()
      requires Valid()
      reads this`plp, this`home, kernelDir.tables, kernelDir.phyTables, kernelDir.tables[..], bitmap.frames
    {
      && (forall q: nat :: q < TOP ==> (Entry(q).present <==> q in View().at))
      && (forall q: nat :: 0xB8 <= q < 0xC0 ==> Entry(q).present)
      && forall q: nat :: q < ALL ==> (Entry(q).user <==> 0xB8 <= q < 0xC0) && (Entry(q).rw <==> 0xB8 <= q < 0xC0)
    }

    lemma HeapGuarded(b: nat, p: nat, e: nat, s: State)
      requires Valid() && HeapMapped(b, p, e, s)
      ensures Guarded()
    {
      hide Wired, EntryAt, Good, AllocRange, UsedOf;
      RangeMapped(s, b, p);
      forall q: nat | q < ALL
        ensures (Entry(q).user <==> 0xB8 <= q < 0xC0) && (Entry(q).rw <==> 0xB8 <= q < 0xC0)
        ensures q < TOP ==> (Entry(q).present <==> q in View().at)
      {
        if q < b {
          assert Entry(q) == SelfEntry(q, b, 0xC0);
        } else if q < p {
          assert Granted(q, true, false);
        }
      }
    }

    /** One round of the heap loop: page `p`. */
    method MapHeap(ghost b: nat, p: nat, ghost s: State) returns (ok: bool)
      requires Valid() && !heapOnline && HeapMapped(b, p, p, s) && p < TOP
      modifies this`plp, this`home, kernelDir.tables, kernelDir.phyTables, bitmap.frames, kernelDir.tables[..]
      ensures Valid() && (ok <==> AllocRange(s, b, p + 1).Running?) && (ok ==> HeapMapped(b, p + 1, p + 1, s))
      ensures forall t :: 0 <= t < kernelDir.tables.Length && kernelDir.tables[t] != null ==>
                kernelDir.tables[t] == old(kernelDir.tables[t]) || fresh(kernelDir.tables[t])
    {
      hide Valid, Entry, EntryAt, Tables, Wired, View, UsedOf, Mapped, Filled, Put, Bits, SelfEntry, Good, Alloc;
      ViewFacts(p);
      ReachedNext(p);
      GoodZero(View());
      var t: array?<Pte>, i: nat;
      ok, t, i := GetPage(p * PAGE, true);
      ViewFacts(p);
      MappedEntry(t, i, p);
      if Alloc(View(), p).Running? {
        GoodAlloc(View(), p);
      }
      ok := AllocFrame(t, i, true, false, p);
      if ok {
        forall q: nat | b <= q < p + 1 ensures Granted(q, true, false) {
          assert q < p ==> old(Granted(q, true, false));
        }
      }
    }

    /** One round of the last loop: the table for page `e`. */
    method MakeRoom(e: nat, ghost b: nat, ghost p: nat, ghost s: State)
      requires Valid() && !heapOnline && HeapMapped(b, p, e, s) && e < TOP
      modifies this`plp, this`home, kernelDir.tables, kernelDir.phyTables
      ensures Valid() && HeapMapped(b, p, e + 1, s)
      ensures forall t :: 0 <= t < kernelDir.tables.Length && kernelDir.tables[t] != null ==>
                kernelDir.tables[t] == old(kernelDir.tables[t]) || fresh(kernelDir.tables[t])
    {
      hide Valid, Entry, EntryAt, Tables, Wired, View, UsedOf, Mapped, Filled, Put, Bits, SelfEntry, Good, Alloc, AllocRange;
      ViewFacts(e);
      ReachedNext(e);
      var ok, t, i := GetPage(e * PAGE, true);
      ViewFacts(e);
      forall q: nat | b <= q < p ensures Granted(q, true, false) {
        assert old(Granted(q, true, false));
      }
    }

    /** The first and the second identity loop. */
    method MapFixed(from: nat, to: nat, ghost used: set<nat>)
      requires from % PAGE == 0 && to % PAGE == 0 && 0 < from <= to <= KHEAP_END
      requires Valid() && !heapOnline && SelfMapped(from / PAGE, 0, used)
      modifies this`plp, this`home, kernelDir.tables, kernelDir.phyTables, bitmap.frames, kernelDir.tables[..]
      ensures Valid() && SelfMapped(to / PAGE, 0, used)
      ensures old(plp) <= plp <= old(plp) + 2 * PAGE * (Reached(to / PAGE) - Reached(from / PAGE))
      ensures forall t :: 0 <= t < kernelDir.tables.Length && kernelDir.tables[t] != null ==>
                kernelDir.tables[t] == old(kernelDir.tables[t]) || fresh(kernelDir.tables[t])
    {
      hide Valid, SelfMapped, Reached;
      var i := from;
      ghost var b: nat := from / PAGE;
      while i < to
        invariant from <= i <= to && i == b * PAGE && Valid() && SelfMapped(b, 0, used)
        invariant old(plp) <= plp <= old(plp) + 2 * PAGE * (Reached(b) - Reached(from / PAGE))
        invariant forall t :: 0 <= t < kernelDir.tables.Length && kernelDir.tables[t] != null ==>
                    kernelDir.tables[t] == old(kernelDir.tables[t]) || fresh(kernelDir.tables[t])
      {
        MapSelf(i / PAGE, used);
        i, b := i + 0x1000, b + 1;
      }
      assert b == to / PAGE;
    }

    /** The third identity loop, up to the end of the image; its bound moves while it runs, as tables
        are made. */
    method MapImage(ghost used: set<nat>) returns (i: nat)
      requires Valid() && !heapOnline && SelfMapped(KERNEL_BASE / PAGE, 0, used) && plp <= MAX_IMAGE + 2 * PAGE
      modifies this`plp, this`home, kernelDir.tables, kernelDir.phyTables, bitmap.frames, kernelDir.tables[..]
      ensures Valid() && old(plp) <= plp && i == plp + 0x3000 && KERNEL_BASE < i <= KHEAP_END - 0x10_0000
      ensures i % PAGE == 0 && SelfMapped(i / PAGE, 0, used)
      ensures forall t :: 0 <= t < kernelDir.tables.Length && kernelDir.tables[t] != null ==>
                kernelDir.tables[t] == old(kernelDir.tables[t]) || fresh(kernelDir.tables[t])
    {
      hide Valid, SelfMapped, Reached;
      FirstReached();
      ghost var b: nat := KERNEL_BASE / PAGE;
      i := 0x100000;
      SelfFacts(b, 0, used);
      while i < plp + 0x3000
        invariant i == b * PAGE && b <= TOP - 0x100 && i <= plp + 0x3000 && Valid() && SelfMapped(b, 0, used) && plp % PAGE == 0
        invariant old(plp) <= plp <= old(plp) + 2 * PAGE * (Reached(b) - 1)
        invariant forall t :: 0 <= t < kernelDir.tables.Length && kernelDir.tables[t] != null ==>
                    kernelDir.tables[t] == old(kernelDir.tables[t]) || fresh(kernelDir.tables[t])
        decreases 2 * PAGE * (SIZE - Reached(b)) + plp + 0x3000 - i
      {
        ImageBound(b, plp);
        MapSelf(i / PAGE, used);
        i, b := i + 0x1000, b + 1;
        SelfFacts(b, 0, used);
      }
    }

    /** The VGA loop. */
    method MapVgaRange(ghost b: nat, ghost used: set<nat>)
      requires Valid() && !heapOnline && SelfMapped(b, 0, used) && 0xC0 <= b
      modifies this`plp, this`home, kernelDir.tables, kernelDir.phyTables, bitmap.frames, kernelDir.tables[..]
      ensures Valid() && SelfMapped(b, 0xC0, used)
      ensures kernelDir.tables[..] == old(kernelDir.tables[..]) && plp == old(plp)
      // the eight pages are for users to write; no other entry changes
      ensures forall q: nat :: q < ALL ==>
                if 0xB8 <= q < 0xC0 then Granted(q, false, true) && Entry(q).frame == q else Entry(q) == old(Entry(q))
    {
      hide Valid, SelfMapped, Granted;
      var i := 0xB8000;
      SelfIs(b, 0, used);
      VgaStart(b, used);
      while i < 0xC0000
        invariant VGA * PAGE <= i <= 0xC0000 && i % PAGE == 0 && Valid() && SelfMapped(b, i / PAGE, used)
        invariant kernelDir.tables[..] == old(kernelDir.tables[..]) && plp == old(plp)
      {
        MapVga(i / PAGE, b, used);
        i := i + 0x1000;
      }
      SelfIs(b, 0xC0, used);
      forall q: nat | q < ALL
        ensures if 0xB8 <= q < 0xC0 then Granted(q, false, true) && Entry(q).frame == q else Entry(q) == old(Entry(q))
      {
        assert 0xB8 <= q < 0xC0 || old(Entry(q)) == SelfEntry(q, b, 0);
      }
    }

    /** What the rights of the pages mapped to themselves are. */
    lemma SelfIs(b: nat, v: nat, used: set<nat>)
      requires Valid() && SelfMapped(b, v, used) && 0xC0 <= b && (v == 0 || v == 0xC0)
      ensures v == 0xC0 ==> forall q: nat :: 0xB8 <= q < 0xC0 ==> Granted(q, false, true) && Entry(q).frame == q
      ensures forall q: nat :: q < ALL && !(0xB8 <= q < 0xC0) ==> Entry(q) == SelfEntry(q, b, 0)
    {
      hide Valid, Entry;
    }

    /** The heap loop. */
    method MapHeapRange(from: nat, hs: nat, ghost s: State) returns (ok: bool)
      requires from % PAGE == 0 && hs % PAGE == 0 && from <= hs <= KHEAP_END
      requires Valid() && !heapOnline && HeapMapped(from / PAGE, from / PAGE, from / PAGE, s)
      modifies this`plp, this`home, kernelDir.tables, kernelDir.phyTables, bitmap.frames, kernelDir.tables[..]
      ensures Valid() && (ok <==> AllocRange(s, from / PAGE, hs / PAGE).Running?)
      ensures ok ==> HeapMapped(from / PAGE, hs / PAGE, hs / PAGE, s)
      ensures forall t :: 0 <= t < kernelDir.tables.Length && kernelDir.tables[t] != null ==>
                kernelDir.tables[t] == old(kernelDir.tables[t]) || fresh(kernelDir.tables[t])
    {
      hide Valid, HeapMapped, AllocRange;
      ghost var b := from / PAGE;
      var i := from;
      while i < hs
        invariant from <= i <= hs && i % PAGE == 0 && Valid() && HeapMapped(b, i / PAGE, i / PAGE, s)
        invariant forall t :: 0 <= t < kernelDir.tables.Length && kernelDir.tables[t] != null ==>
                    kernelDir.tables[t] == old(kernelDir.tables[t]) || fresh(kernelDir.tables[t])
      {
        ok := MapHeap(b, i / PAGE, s);
        i := i + 0x1000;
        if !ok {
          RangePanics(s, b, i / PAGE, hs / PAGE);
          return;
        }
      }
      HeapReady(b, hs / PAGE, hs / PAGE, s);
      ok := true;
    }

    /** The last loop. */
    method MakeTables(hs: nat, ghost b: nat, ghost s: State)
      requires hs % PAGE == 0 && hs <= KHEAP_END && Valid() && !heapOnline && HeapMapped(b, hs / PAGE, hs / PAGE, s)
      modifies this`plp, this`home, kernelDir.tables, kernelDir.phyTables
      ensures Valid() && HeapMapped(b, hs / PAGE, TOP, s)
      ensures forall t :: 0 <= t < kernelDir.tables.Length && kernelDir.tables[t] != null ==>
                kernelDir.tables[t] == old(kernelDir.tables[t]) || fresh(kernelDir.tables[t])
    {
      hide Valid, HeapMapped;
      var i := hs;
      while i < KHEAP_END
        invariant hs <= i <= KHEAP_END && i % PAGE == 0 && Valid() && HeapMapped(b, hs / PAGE, i / PAGE, s)
        invariant forall t :: 0 <= t < kernelDir.tables.Length && kernelDir.tables[t] != null ==>
                    kernelDir.tables[t] == old(kernelDir.tables[t]) || fresh(kernelDir.tables[t])
      {
        MakeRoom(i / PAGE, b, hs / PAGE, s);
        i := i + 0x1000;
      }
    }

    /** paging_fini up to the VGA loop; `end` is where the identity mapping ends. */
    method MapIdentity() returns (end: nat)
      requires Valid() && !heapOnline && plp <= MAX_IMAGE && forall t :: 0 <= t < SIZE ==> kernelDir.tables[t] == null
      modifies this`plp, this`home, kernelDir.tables, kernelDir.phyTables, bitmap.frames
      ensures Valid() && end == plp + 0x3000 && end % PAGE == 0
      ensures old(plp) + 0x3000 <= end <= KHEAP_END - 0x10_0000 && 0 < end / PAGE
      ensures var b := end / PAGE; HeapMapped(b, b, b, Booted(bitmap.nframes, old(bitmap.Used()), b))
      ensures forall t :: 0 <= t < kernelDir.tables.Length && kernelDir.tables[t] != null ==> fresh(kernelDir.tables[t])
    {
      hide Valid, SelfMapped, HeapMapped, UsedOf, View, Booted, Entry, Wired, Tables, EntryAt;
      ghost var used := bitmap.Used();
      ViewFacts(0);
      ReserveZero();
      MapFixed(0x1000, 0x80000, used);
      MapFixed(0x80000, 0x100000, used);
      end := MapImage(used);
      MapVgaRange(end / PAGE, used);
      HeapBegins(end / PAGE, used);
    }

    /** paging_fini, on a directory of zeros; `ok` is false where first_frame panics. It maps pages 1 to
        `base` to themselves and pages `base` to `top` to free frames. */
    method PagingFini() returns (ok: bool, ghost base: nat, ghost top: nat)
      requires Valid() && !heapOnline && plp <= MAX_IMAGE && forall t :: 0 <= t < SIZE ==> kernelDir.tables[t] == null
      modifies this, kernelDir, kernelDir.tables, kernelDir.phyTables, bitmap.frames
      ensures Valid()
      ensures old(plp) + 0x3000 <= base * PAGE <= KHEAP_END - 0x10_0000 && top == HeapStart(base)
      ensures top * PAGE == if KHEAP_START < base * PAGE then base * PAGE - 0x3000 + 0x10_0000 else KHEAP_START
      ensures ok <==> AllocRange(Booted(bitmap.nframes, old(bitmap.Used()), base), base, top).Running?
      ensures ok ==>
                && HeapMapped(base, top, TOP, Booted(bitmap.nframes, old(bitmap.Used()), base)) && Guarded()
                && Populated(kernelDir.tables[..]) && Good(View())
                && kernelDir.phyAddr == kernelDir.phyTables && current == kernelDir
      ensures !heapOnline
      ensures forall t :: 0 <= t < kernelDir.tables.Length && kernelDir.tables[t] != null ==> fresh(kernelDir.tables[t])
    {
      hide Valid, HeapMapped, AllocRange, Good, Populated, UsedOf, View, Booted, Entry, Wired, Tables, EntryAt;
      ghost var used := bitmap.Used();
      var end := MapIdentity();
      base := end / PAGE;
      ghost var s := Booted(bitmap.nframes, used, base);
      kernelDir.phyAddr := kernelDir.phyTables;
      var hs := KHEAP_START;
      if hs < plp + 0x3000 {
        hs := plp + 0x100000;
      }
      top := hs / PAGE;
      ok := MapHeapRange(plp + 0x3000, hs, s);
      if ok {
        MakeTables(hs, base, s);
        HeapReady(base, top, TOP, s);
        HeapGuarded(base, top, TOP, s);
        current := kernelDir;
      }
    }

    lemma SelfFacts(b: nat, v: nat, used: set<nat>)
      requires Valid() && SelfMapped(b, v, used)
      ensures plp % PAGE == 0 && KERNEL_BASE <= plp
    {
    }

    lemma VgaStart(b: nat, used: set<nat>)
      requires Valid() && SelfMapped(b, 0, used) && VGA <= b
      ensures SelfMapped(b, VGA, used)
    {
    }

    /** The identity mapping leaves a good state. */
    lemma HeapBegins(b: nat, used: set<nat>)
      requires Valid() && SelfMapped(b, 0xC0, used) && 0xC0 <= b
      ensures HeapMapped(b, b, b, Booted(bitmap.nframes, used, b))
    {
      hide Valid, Entry, EntryAt, Wired, Tables, Mapped, UsedOf, LowestRun;
      var s := View();
      ViewFacts(0);
      UsedBounded();
      assert InRun(0, 0, b);
      assert forall p :: p in s.at ==> InRun(p, 1, b - 1) && s.at[p] == p;
      assert forall p: nat :: p < b ==> InRun(p, 0, b);
      assert forall f :: f in s.used ==> f < Bits(s.nframes);
      assert forall p :: p in s.at ==> p < TOP && s.at[p] != 0;
      assert NoSharing(s.at);
      assert Good(s);
      assert (forall q: nat :: b <= q < ALL ==> Entry(q) == BLANK);
    }

    lemma UsedBounded()
      requires Valid()
      ensures forall f :: f in View().used ==> f < Bits(bitmap.nframes)
    {
    }

    lemma HeapReady(b: nat, p: nat, e: nat, s: State)
      requires Valid() && HeapMapped(b, p, e, s)
      ensures AllocRange(s, b, p) == Running(View()) && Good(View())
      ensures e == TOP ==> Populated(kernelDir.tables[..])
    {
      hide Wired, Entry, EntryAt, View, Good, AllocRange;
    }

    lemma MappedEntry(t: array<Pte>, i: nat, p: nat)
      requires Valid() && IsEntry(t, i, p) && p < TOP
      ensures bitmap.Valid() && i < t.Length && Entry(p) == t[i] && Apart(t)
      ensures kernelDir.tables as object != bitmap.frames && kernelDir.phyTables as object != bitmap.frames
      ensures if t[i].frame == 0 then p !in View().at else p in View().at && View().at[p] == t[i].frame
    {
    }
  }

  /** The tables that hold the entries of pages below `b`. */
  function Reached(b: nat): nat { (b + SIZE - 1) / SIZE }

  lemma ReachedNext(b: nat)
    requires b < TOP
    ensures b * PAGE / PAGE == b && b / SIZE < SIZE
    ensures Reached(b + 1) == if b / SIZE < Reached(b) then Reached(b) else Reached(b) + 1
    ensures b / SIZE < Reached(b) || b / SIZE == Reached(b)
  {
  }

  lemma FirstReached()
    ensures Reached(KERNEL_BASE / PAGE) == 1
  {
  }

  /** The image, and the tables made for it, end well before KHEAP_END. */
  lemma ImageBound(b: nat, plp: nat)
    requires b <= TOP - 0x100 && b * PAGE < plp + 0x3000 && plp <= MAX_IMAGE + 2 * PAGE * Reached(b)
    ensures b < TOP - 0x100 && Reached(b) <= Reached(b + 1) <= SIZE
  {
  }

  const VGA := 0xB8

  function SelfEntry(q: nat, b: nat, v: nat): Pte {
    if q < 1 || b <= q then BLANK else if VGA <= q < v then Filled(false, true, q) else Filled(true, false, q)
  }

  lemma SelfNext(nframes: nat, used: set<nat>, b: nat)
    requires 1 <= b < TOP
    ensures forall q: nat :: SelfEntry(q, b + 1, 0) == if q == b then Filled(true, false, b) else SelfEntry(q, b, 0)
    ensures used + Marked(0, b + 1, nframes) == used + Marked(0, b, nframes) + if b < nframes then {b} else {}
    ensures Identity(1, b) == Put(Identity(1, b - 1), b, b)
  {
    forall f: nat ensures f in Marked(0, b + 1, nframes) <==> f in Marked(0, b, nframes) || (f == b && b < nframes) {
      assert InRun(f, 0, b + 1) <==> InRun(f, 0, b) || f == b;
    }
    assert Marked(0, b + 1, nframes) == Marked(0, b, nframes) + if b < nframes then {b} else {};
    assert used + Marked(0, b + 1, nframes) == used + Marked(0, b, nframes) + if b < nframes then {b} else {};
    forall q: nat ensures SelfEntry(q, b + 1, 0) == if q == b then Filled(true, false, b) else SelfEntry(q, b, 0) {
      assert b + 1 <= q <==> b <= q && q != b;
    }
    assert forall f: nat :: InRun(f, 1, b) <==> InRun(f, 1, b - 1) || f == b;
    assert Identity(1, b) == Identity(1, b - 1)[b := b];
  }

  lemma SelfAgain(nframes: nat, used: set<nat>, b: nat, v: nat)
    requires VGA <= v < b <= TOP
    ensures forall q: nat :: SelfEntry(q, b, v + 1) == if q == v then Filled(false, true, v) else SelfEntry(q, b, v)
    ensures used + Marked(0, b, nframes) == used + Marked(0, b, nframes) + if v < nframes then {v} else {}
    ensures Identity(1, b - 1) == Put(Identity(1, b - 1), v, v)
  {
    forall q: nat
      ensures SelfEntry(q, b, v + 1) == if q == v then Filled(false, true, v) else SelfEntry(q, b, v)
    {
      assert VGA <= q < v + 1 <==> VGA <= q < v || q == v;
    }
    assert InRun(v, 0, b) && InRun(v, 1, b - 1);
  }

  lemma FirstState(nframes: nat, used: set<nat>, at: map<nat, nat>)
    requires nframes > 0
    ensures used + {0} == used + Marked(0, 1, nframes) && Identity(1, 0) == map[]
    ensures at == map[] ==> Put(at, 0, 0) == Identity(1, 0)
  {
    assert InRun(0, 0, 1);
    assert Marked(0, 1, nframes) == {0};
  }

  lemma NoTables(ts: seq<array?<Pte>>)
    requires Tables(ts) && forall t :: 0 <= t < SIZE ==> ts[t] == null
    ensures Mapped(ts) == map[] && forall q: nat :: q < ALL ==> EntryAt(ts, q) == BLANK
  {
  }

  /** alloc_frame on pages `b` to `p` in turn. */
  ghost function AllocRange(s: State, b: nat, p: nat): Outcome
    requires b <= p
    decreases p - b
  {
    if p == b then Running(s)
    else
      match AllocRange(s, b, p - 1)
      case Panic => Panic
      case Running(s') => Alloc(s', p - 1)
  }

  /** The state after the identity loops, from the frames marked before. */
  ghost function Booted(nframes: nat, used: set<nat>, base: nat): State
    requires base > 0
  {
    State(nframes, used + Marked(0, base, nframes), Identity(1, base - 1))
  }

  /** Where the kernel heap's unmapped part starts: KHEAP_START, or 1 MiB behind a larger image. */
  function HeapStart(base: nat): nat {
    if KHEAP_START < base * PAGE then base + 0x100 - 3 else KHEAP_START / PAGE
  }

  const MAX_IMAGE := 0x1FC0_0000

  lemma {:induction false} RangePanics(s: State, b: nat, p: nat, top: nat)
    requires b <= p <= top && AllocRange(s, b, p).Panic?
    ensures AllocRange(s, b, top).Panic?
    decreases top - p
  {
    if p < top {
      RangePanics(s, b, p, top - 1);
    }
  }

  lemma {:induction false} RangeMapped(s: State, b: nat, p: nat)
    requires b <= p && AllocRange(s, b, p).Running?
    ensures forall q :: b <= q < p ==> q in AllocRange(s, b, p).state.at
    decreases p
  {
    hide LowestRun, Counted;
    if p > b {
      RangeMapped(s, b, p - 1);
    }
  }

  lemma GoodZero(s: State)
    requires Good(s)
    ensures 0 in s.used
  {
  }

  lemma GoodAlloc(s: State, p: nat)
    requires Good(s) && p < TOP && Alloc(s, p).Running?
    ensures Good(Alloc(s, p).state)
  {
    AllocGood(s, p);
  }

  function Put(at: map<nat, nat>, p: nat, f: nat): map<nat, nat> {
    if p >= TOP then at else if f != 0 then at[p := f] else at - {p}
  }

  lemma CountedInside(nframes: nat, f: nat)
    requires f < Counted(nframes)
    ensures f * PAGE / PAGE == f && f < Bits(nframes)
  {
  }

  /** The state after mm_alloc_pages has mapped `j` pages of the run from `r`. */
  ghost function Taken(s: State, r: nat, j: nat): State {
    s.(used := s.used + Marked(r, j, s.nframes), at := s.at + Identity(r, j))
  }

  lemma NoneYet(s: State, r: nat)
    ensures Taken(s, r, 0) == s && forall q :: !InRun(q, r, 0)
  {
    assert s.used + Marked(r, 0, s.nframes) == s.used;
    assert s.at + Identity(r, 0) == s.at;
  }

  lemma RunNext(s: State, n: nat, j: nat)
    requires 0 in s.used && j < n && Found(s, n) < s.nframes
    ensures var r := Found(s, n);
            && 0 < r + j && r + j !in Taken(s, r, j).used
            && (forall q :: InRun(q, r, j + 1) <==> InRun(q, r, j) || q == r + j)
            && Taken(s, r, j + 1).used == Taken(s, r, j).used + (if r + j < s.nframes then {r + j} else {})
            && (r + j < TOP ==> Taken(s, r, j + 1).at == Put(Taken(s, r, j).at, r + j, r + j))
            && Taken(s, r, j + 1) == State(s.nframes, Taken(s, r, j + 1).used, Taken(s, r, j + 1).at)
  {
    hide LowestRun;
    var r := Found(s, n);
    assert InRun(r + j, r, j + 1);
    assert r !in s.used && r + j !in s.used;
    assert Marked(r, j + 1, s.nframes) == Marked(r, j, s.nframes) + (if r + j < s.nframes then {r + j} else {});
    assert Identity(r, j + 1) == Identity(r, j)[r + j := r + j];
    if r + j < TOP {
      assert Taken(s, r, j + 1).at == Put(Taken(s, r, j).at, r + j, r + j);
    }
  }

  lemma PagesPanics(s: State, n: nat)
    requires Found(s, n) < s.nframes && Found(s, n) + n > TOP
    ensures Pages(s, n) == Panic
  {
  }

  /** Once the whole run is mapped, or if there is none, mm_alloc_pages is done. */
  lemma PagesRuns(s: State, n: nat)
    requires Found(s, n) < s.nframes ==> Found(s, n) + n <= TOP
    ensures Pages(s, n) == Running(if Found(s, n) < s.nframes then Taken(s, Found(s, n), n) else s)
  {
  }

  /** The addresses of a run do not wrap; those of the failure value make an empty loop. */
  lemma RunAddresses(first: nat, n: nat)
    requires n <= ALL && (first == NO_FRAME || first + n < ALL)
    ensures var addr := first * PAGE % ADDRESSES;
            var end := (addr + n * PAGE) % ADDRESSES;
            if first == NO_FRAME then addr == 0xFFFF_F000 && end <= addr
            else addr == first * PAGE && end == addr + n * PAGE
  {
    if first == NO_FRAME {
      assert first * PAGE == 0xFFF * ADDRESSES + 0xFFFF_F000;
      if n > 0 {
        assert 0xFFFF_F000 + n * PAGE == ADDRESSES + (n - 1) * PAGE;
      }
    }
  }

  lemma WiredGrows(ts: seq<array?<Pte>>, phy: seq<nat>, home: map<nat, array<Pte>>, plp: nat,
                   tindex: nat, tmp: nat, t: array<Pte>, plp': nat)
    requires Wired(ts, phy, home, plp) && tindex < SIZE && ts[tindex] == null
    requires tmp % PAGE == 0 && plp <= tmp && plp' == tmp + PAGE
    ensures Wired(ts[tindex := t], phy[tindex := tmp + 7], home[tmp := t], plp')
  {
  }

  lemma WiredUp(ts: seq<array?<Pte>>, phy: seq<nat>, home: map<nat, array<Pte>>, plp: nat, plp': nat)
    requires Wired(ts, phy, home, plp) && plp <= plp'
    ensures Wired(ts, phy, home, plp')
  {
  }

  lemma MappedFacts(ts: seq<array?<Pte>>)
    requires Tables(ts)
    ensures forall q :: q in Mapped(ts) ==> q < TOP
    ensures forall q: nat :: q < TOP ==>
              if EntryAt(ts, q).frame != 0 then q in Mapped(ts) && Mapped(ts)[q] == EntryAt(ts, q).frame else q !in Mapped(ts)
  {
  }

  lemma Same(ts: seq<array?<Pte>>, at: map<nat, nat>)
    requires Tables(ts) && forall q :: q in at ==> q < TOP
    requires forall q: nat :: q < TOP ==>
               if EntryAt(ts, q).frame != 0 then q in at && at[q] == EntryAt(ts, q).frame else q !in at
    ensures Mapped(ts) == at
  {
  }
}
