/** mm/page.c: page directories and tables, and the allocation of pages over them. */
module Paging {
  import opened FrameModel

  const SIZE := 1024                  // tables of a directory, entries of a table
  const ALL := 0x10_0000              // pages of the address space
  const ADDRESSES := 0x1_0000_0000
  const KHEAP_START := 0x80_0000
  const KHEAP_END := 0x2000_0000
  const KERNEL_BASE := 0x10_0000      // the kernel is linked at 1 MiB

  /** `struct page`, without the bits nothing here touches. */
  datatype Pte = Pte(present: bool, rw: bool, user: bool, frame: nat)

  const BLANK := Pte(false, false, false, 0)

  /** `struct page_directory`. A directory is loaded by loading `phyAddr`, which stands for the table of
      physical addresses it points to. */
  class PageDir {
    const tables: array<array?<Pte>>
    const phyTables: array<nat>
    var phyAddr: array?<nat>

    /** A directory of zeros. */
    constructor ()
      ensures fresh(tables) && fresh(phyTables) && tables.Length == SIZE && phyTables.Length == SIZE
      ensures forall t :: 0 <= t < SIZE ==> tables[t] == null && phyTables[t] == 0
      ensures phyAddr == null
    {
      tables := new array?<Pte>[SIZE](_ => null);
      phyTables := new nat[SIZE](_ => 0);
      phyAddr := null;
    }

    /** copy_page_dir. */
    constructor Copy(src: PageDir)
      requires src.tables.Length == SIZE && src.phyTables.Length == SIZE
      ensures fresh(tables) && fresh(phyTables) && tables[..] == src.tables[..] && phyTables[..] == src.phyTables[..]
      ensures phyAddr == src.phyAddr
    {
      var ts, phys := src.tables[..], src.phyTables[..];
      tables := new array?<Pte>[SIZE](i requires 0 <= i < SIZE => ts[i]);
      phyTables := new nat[SIZE](i requires 0 <= i < SIZE => phys[i]);
      phyAddr := src.phyAddr;
    }
  }

  // ---------------------------------------------------------------- translation

  /** A directory's table pointers: tables have 1024 entries, and no table is in two places. */
  predicate Tables(ts: seq<array?<Pte>>) {
    && |ts| == SIZE
    && (forall t :: 0 <= t < SIZE && ts[t] != null ==> ts[t].Length == SIZE)
    && (forall t, u :: 0 <= t < u < SIZE && ts[t] != null ==> ts[t] != ts[u])
  }

  ghost function EntryAt(ts: seq<array?<Pte>>, p: nat): Pte
    requires Tables(ts) && p < ALL
    reads ts
  {
    if ts[p / SIZE] == null then BLANK else ts[p / SIZE][p % SIZE]
  }

  /** The 10/10/12 translation by table pointers; 0 where there is no table. */
  ghost function Translate(ts: seq<array?<Pte>>, a: nat): nat
    requires Tables(ts) && a < ADDRESSES
    reads ts
  {
    if ts[a / PAGE / SIZE] == null then 0 else EntryAt(ts, a / PAGE).frame * PAGE + a % PAGE
  }

  ghost function Mapped(ts: seq<array?<Pte>>): map<nat, nat>
    requires Tables(ts)
    reads ts
  {
    map p: nat | p < TOP && EntryAt(ts, p).frame != 0 :: EntryAt(ts, p).frame
  }

  /** The tables that exist are those below KHEAP_END. */
  predicate Populated(ts: seq<array?<Pte>>) {
    |ts| == SIZE && forall t :: 0 <= t < SIZE ==> (ts[t] != null <==> t < TOP / SIZE)
  }

  /** The physical addresses the hardware walks lead to the tables the pointers lead to. `home` says
      which table is at a physical address; addresses of new tables start at `plp`. */
  ghost predicate Wired(ts: seq<array?<Pte>>, phy: seq<nat>, home: map<nat, array<Pte>>, plp: nat) {
    && |ts| == |phy| == SIZE
    && (forall t :: 0 <= t < SIZE ==>
          if ts[t] == null then phy[t] == 0
          else phy[t] >= 7 && phy[t] - 7 in home && home[phy[t] - 7] == ts[t])
    && (forall x :: x in home ==> x % PAGE == 0 && x + PAGE <= plp)
  }

  /** The walk of the hardware ("32-bit paging"): from the directory entry, its flags masked out, to the
      table at that address. None where the entry or the page is not present. */
  datatype Walk = Fault | To(address: nat)

  ghost function HardwareWalk(phy: seq<nat>, home: map<nat, array<Pte>>, a: nat): Walk
    requires |phy| == SIZE && a < ADDRESSES
    reads set x | x in home :: home[x]
  {
    var e := phy[a / PAGE / SIZE];
    var x := e - e % PAGE;
    if e % 2 == 0 || x !in home || home[x].Length != SIZE then Fault
    else
      var pte := home[x][a / PAGE % SIZE];
      if pte.present then To(pte.frame * PAGE + a % PAGE) else Fault
  }

  /** For present pages, the hardware and virtual_to_physical agree. */
  lemma WalkIsTranslate(ts: seq<array?<Pte>>, phy: seq<nat>, home: map<nat, array<Pte>>, plp: nat, a: nat)
    requires Tables(ts) && Wired(ts, phy, home, plp) && a < ADDRESSES
    ensures HardwareWalk(phy, home, a) ==
            if EntryAt(ts, a / PAGE).present then To(Translate(ts, a)) else Fault
  {
    var t := a / PAGE / SIZE;
    if ts[t] != null {
      var x := phy[t] - 7;
      assert x % PAGE == 0;
      assert phy[t] % PAGE == 7 && phy[t] % 2 == 1;
    }
  }

  /** The user bit and the write bit of a directory entry, bits 2 and 1. */
  predicate ForUsers(e: nat) { e % 8 >= 4 }

  predicate ForWriting(e: nat) { e % 4 >= 2 }

  /** What the hardware lets user mode do at an address: directory entry and page must both allow it. */
  ghost predicate UserMay(phy: seq<nat>, home: map<nat, array<Pte>>, a: nat, write: bool)
    requires |phy| == SIZE && a < ADDRESSES
    reads set x | x in home :: home[x]
  {
    HardwareWalk(phy, home, a).To? &&
    var e := phy[a / PAGE / SIZE];
    var pte := home[e - e % PAGE][a / PAGE % SIZE];
    ForUsers(e) && pte.user && (write ==> ForWriting(e) && pte.rw)
  }

  /** The entries of the directory allow everything, so the page's own rights decide. */
  lemma UserMayIs(ts: seq<array?<Pte>>, phy: seq<nat>, home: map<nat, array<Pte>>, plp: nat, a: nat, write: bool)
    requires Tables(ts) && Wired(ts, phy, home, plp) && a < ADDRESSES
    ensures UserMay(phy, home, a, write) <==>
            var e := EntryAt(ts, a / PAGE); e.present && e.user && (write ==> e.rw)
  {
    hide ForUsers, ForWriting;
    WalkIsTranslate(ts, phy, home, plp, a);
    var t := a / PAGE / SIZE;
    if ts[t] != null {
      EntryBits(phy[t] - 7);
    }
  }

  /** An entry is the address of a table with the three lowest bits set. */
  lemma EntryBits(x: nat)
    requires x % PAGE == 0
    ensures ForUsers(x + 7) && ForWriting(x + 7) && (x + 7) % PAGE == 7
  {
    hide ForUsers, ForWriting;
    TableBits(x / PAGE);
  }

  lemma TableBits(q: nat)
    ensures ForUsers(4096 * q + 7) && ForWriting(4096 * q + 7)
  {
  }
}
