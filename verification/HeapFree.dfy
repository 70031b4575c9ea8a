/** The contract of free, and what it reads on the way. */
module HeapFree {
  import opened Memory
  import opened HeapLayout
  import opened HeapSearch
  import opened HeapHeaders
  import opened HeapRelink
  import opened HeapFrames

  /** `p` is a pointer malloc handed out and nobody freed since. */
  ghost predicate Live(l: Layout, p: int) {
    exists j, k :: 0 <= j < |l| && 0 <= k < |l[j].allocs| && l[j].allocs[k].UserPtr() == p
  }

  ghost function Locate(l: Layout, p: int): (s: (nat, nat))
    requires Live(l, p)
    ensures s.0 < |l| && s.1 < |l[s.0].allocs| && l[s.0].allocs[s.1].UserPtr() == p
  {
    var j, k :| 0 <= j < |l| && 0 <= k < |l[j].allocs| && l[j].allocs[k].UserPtr() == p;
    (j, k)
  }

  ghost function Block(l: Layout, p: int): (a: Alloc)
    requires Live(l, p)
    ensures a.UserPtr() == p
  {
    l[Locate(l, p).0].allocs[Locate(l, p).1]
  }

  ghost function Freed(l: Layout, p: int): Layout
    requires Live(l, p)
  {
    Release(l, Locate(l, p).0, Locate(l, p).1)
  }

  /** There is only one place to find a live pointer. */
  lemma LocateIs(l: Layout, limit: int, j: nat, k: nat)
    requires ValidLayout(l, limit) && j < |l| && k < |l[j].allocs|
    ensures Live(l, l[j].allocs[k].UserPtr()) && Locate(l, l[j].allocs[k].UserPtr()) == (j, k)
  {
    var p := l[j].allocs[k].UserPtr();
    assert Live(l, p);
    var (i, b) := Locate(l, p);
    PointersDistinct(l, limit, j, k, i, b);
  }

  /** The UNALIGN macro. */
  function Unalign(m: Mem, p: int): int
    requires ALIGN_INFO <= p && p - ALIGN_INFO < |m|
  {
    var diff := m[p - ALIGN_INFO] as int;
    if diff < ALIGNMENT + ALIGN_INFO then p - diff else p
  }

  /** The header free looks at for pointer `p` is in memory. */
  predicate Readable(m: Mem, p: int) {
    && ALIGN_INFO <= p && p - ALIGN_INFO < |m|
    && InMem(m, Unalign(m, p) - HEADER, HEADER)
  }

  /** `p` does not lead to the header of an allocation: a block freed before, or no block at all. */
  predicate Alien(m: Mem, p: int) {
    Readable(m, p) && MinorAt(m, Unalign(m, p) - HEADER).magic != MAGIC
  }

  /** The header at `p` looks as if its magic had been overrun from below: its low byte is still right. */
  predicate Overrun(m: Mem, p: int)
    requires Alien(m, p)
  {
    MinorAt(m, Unalign(m, p) - HEADER).magic % 0x100 == 0xDE
  }

  lemma HiddenByteLeadsBack(m: Mem, a: Alloc)
    requires HiddenByte(m, a) && 0 <= a.addr && InMem(m, a.addr, HEADER)
    ensures Readable(m, a.UserPtr()) && Unalign(m, a.UserPtr()) - HEADER == a.addr
  {
    AlignBounds(a);
  }

  /** The hidden byte leads back to the exact header. */
  lemma LiveHeader(m: Mem, root: int, l: Layout, p: int)
    requires ValidLayout(l, |m|) && Rep(m, root, l) && Live(l, p)
    ensures p != 0 && Readable(m, p) && !Alien(m, p)
    ensures Unalign(m, p) - HEADER == Block(l, p).addr
    ensures MinorAt(m, Block(l, p).addr) == MinorHeader(l[Locate(l, p).0], Locate(l, p).1)
  {
    hide Word, MajorAt, MinorAt, RegionRep, ValidLayout, Alloc.UserPtr, HiddenByte;
    var (j, k) := Locate(l, p);
    assert AllocRep(m, l[j], k);
    HiddenByteLeadsBack(m, Block(l, p));
  }

  /** The block of `p` is the only one of its major. */
  ghost predicate Empties(l: Layout, p: int)
    requires Live(l, p)
  {
    |l[Locate(l, p).0].allocs| == 1
  }

  ghost predicate InMajorHeader(l: Layout, x: int) {
    exists i :: 0 <= i < |l| && InHeader(l[i].addr, x)
  }

  /** Outside the region, only headers of majors were written. */
  ghost predicate OnlyLinks(r: Region, l: Layout, m: Mem, m': Mem) {
    && |m'| == |m|
    && forall x :: 0 <= x < |m| && !(r.addr <= x < r.End()) && !InMajorHeader(l, x) ==> m'[x] == m[x]
  }

  /** Free of live pointer `p` up to the point where pages are given back: its block is gone, only headers
      and the memory of no caller were written, and `p` itself is no longer taken for a block until its
      memory is reused. */
  ghost predicate FreeUnlinked(l: Layout, m: Mem, l': Layout, m': Mem, p: int) {
    && Live(l, p) && l' == Freed(l, p)
    && KeepsUsers(m, m', l) && Confined(m, m', l) && OnlyLinks(l[Locate(l, p).0], l', m, m')
    && Alien(m', p) && Unalign(m', p) == Block(l, p).addr + HEADER
  }

  /** A free that did its work: the block is gone and no other caller's byte changed. */
  ghost predicate FreeOutcome(l: Layout, m: Mem, l': Layout, m': Mem, p: int) {
    Live(l, p) && l' == Freed(l, p) && KeepsUsers(m, m', l) && Alien(m', p)
  }

  /** `[x, x + n)` overlaps no header and no hidden byte. */
  ghost predicate ClearOfHeaders(l: Layout, x: int, n: int) {
    forall i, b :: 0 <= i < |l| && 0 <= b < |l[i].allocs| ==> ClearOf(l[i], l[i].allocs[b], x, n)
  }

  predicate ClearOf(r: Region, q: Alloc, x: int, n: int) {
    && (x + n <= r.addr || r.addr + HEADER <= x) && (x + n <= q.addr || q.addr + HEADER <= x)
    && !(x <= q.UserPtr() - ALIGN_INFO < x + n)
  }

  lemma BlockClear(l: Layout, limit: int, p: int)
    requires ValidLayout(l, limit) && Live(l, p)
    ensures ClearOfHeaders(l, p, Block(l, p).req)
  {
    hide ValidLayout, Alloc.UserPtr;
    var (j, k) := Locate(l, p);
    forall i, b | 0 <= i < |l| && 0 <= b < |l[i].allocs| ensures ClearOf(l[i], l[i].allocs[b], p, Block(l, p).req) {
      Isolated(l, limit, j, k, i, b);
      Isolated(l, limit, i, b, j, k);
      AlignBounds(l[i].allocs[b]);
    }
  }

  /** What a free takes off the two totals. */
  lemma FreeTotals(l: Layout, m: Mem, l': Layout, m': Mem, p: int)
    requires FreeUnlinked(l, m, l', m', p)
    ensures |m'| == |m|
    ensures var (j, k) := Locate(l, p);
            && InUse(l') == InUse(l) - l[j].allocs[k].size
            && Allocated(l') == Allocated(l) - if |l[j].allocs| == 1 then l[j].Bytes() else 0
  {
    hide Release, InUse, Allocated;
    ReleaseTotals(l, Locate(l, p).0, Locate(l, p).1);
  }

  // ---------------------------------------------------------------- steps of free

  /** The headers free writes do not overlap. */
  lemma Neighbours(m: Mem, r: Region, k: nat)
    requires r.Valid() && r.End() <= |m| && k < |r.allocs| && AllocRep(m, r, k)
    requires InMem(m, r.addr, HEADER) && MajorAt(m, r.addr).usage == r.Usage()
    ensures var maj, min := r.addr, r.allocs[k].addr;
            && InMem(m, min, HEADER)
            && var h := MinorAt(m, min);
               && h == MinorHeader(r, k)
               && (if h.prev != 0 then maj + HEADER <= h.prev && h.prev + HEADER <= min else maj + HEADER <= min)
               && (h.next != 0 ==> min + HEADER <= h.next && InMem(m, h.next, HEADER))
               && 0 <= MajorAt(m, maj).usage - (h.size + HEADER)
               && (k > 0 <==> h.prev != 0) && (k + 1 < |r.allocs| <==> h.next != 0)
  {
    hide Word, MajorAt, MinorAt;
    SizesAtLeast(r.allocs, k);
  }

  lemma {:induction false} SizesAtLeast(s: seq<Alloc>, k: nat)
    requires k < |s| && forall i :: 0 <= i < |s| ==> 0 <= s[i].size
    ensures s[k].size <= Sizes(s)
  {
    if k > 0 {
      SizesAtLeast(s[1..], k - 1);
    } else if |s| > 1 {
      SizesAtLeast(s[1..], 0);
    }
  }

  lemma UnlinkedIntro(m: Mem, m': Mem, r: Region, k: nat)
    requires r.Valid() && r.End() <= |m| && |m'| == |m| && k < |r.allocs|
    requires forall o :: 0 <= o < |r.allocs| ==> AllocRep(m, r, o)
    requires InMem(m, r.addr, HEADER) && MajorAt(m, r.addr).usage == r.Usage() && MajorAt(m, r.addr).first == FirstAlloc(r)
    requires var h := MinorHeader(r, k);
             && (k + 1 < |r.allocs| ==> InMem(m, h.next, HEADER) && MinorAt(m', h.next) == MinorAt(m, h.next).(prev := h.prev))
             && (k > 0 ==> InMem(m, h.prev, HEADER) && MinorAt(m', h.prev) == MinorAt(m, h.prev).(next := h.next))
             && MajorAt(m', r.addr) == MajorAt(m, r.addr).(usage := r.Usage() - (h.size + HEADER),
                                                            first := if k == 0 then h.next else FirstAlloc(r))
             && forall x | 0 <= x < |m| ::
                  || InHeader(r.addr, x) || InHeader(r.allocs[k].addr, x)
                  || (h.prev != 0 && InHeader(h.prev, x)) || (h.next != 0 && InHeader(h.next, x))
                  || m'[x] == m[x]
    ensures Unlinked(m, m', r, k)
  {
    hide Word, MajorAt, MinorAt, InHeader;
  }

  lemma MajorNeighbours(m: Mem, root: int, l: Layout, j: nat)
    requires Rep(m, root, l) && ValidLayout(l, |m|) && j < |l|
    ensures l[j].addr != 0 && InMem(m, l[j].addr, HEADER)
    ensures var h := MajorAt(m, l[j].addr);
            && h == MajorHeader(l, j)
            && (j > 0 <==> h.prev != 0) && (j + 1 < |l| <==> h.next != 0)
            && (j > 0 ==> InMem(m, h.prev, HEADER)) && (j + 1 < |l| ==> InMem(m, h.next, HEADER))
            && (j > 0 && j + 1 < |l| ==> h.prev + HEADER <= h.next || h.next + HEADER <= h.prev)
            && (root == l[j].addr <==> j == 0)
  {
    hide Word, MajorAt, AllocRep;
    ReadMajor(m, root, l, j);
    if j > 0 {
      assert Apart(l[0], l[j]);
      if j + 1 < |l| {
        assert Apart(l[j - 1], l[j + 1]);
      }
    }
  }

  lemma DropTotals(l: Layout, limit: int, j: nat, bet: int)
    requires ValidLayout(l, limit) && j < |l| && l[j].allocs == []
    ensures ValidLayout(Without(l, j), limit)
    ensures InUse(Without(l, j)) == InUse(l) && Allocated(Without(l, j)) == Allocated(l) - l[j].Bytes()
    ensures bet != l[j].addr && IndexOf(l, bet) < |l| ==> IndexOf(Without(l, j), bet) < |Without(l, j)|
  {
    hide ValidLayout;
    DropValid(l, limit, j);
    WithoutTotals(l, j);
    if bet != l[j].addr && IndexOf(l, bet) < |l| {
      DropIndex(l, j, bet);
    }
  }

  lemma DropValid(l: Layout, limit: int, j: nat)
    requires ValidLayout(l, limit) && j < |l|
    ensures ValidLayout(Without(l, j), limit)
  {
    hide Region.Valid;
  }

  lemma DropIndex(l: Layout, j: nat, bet: int)
    requires j < |l| && bet != l[j].addr && IndexOf(l, bet) < |l|
    ensures IndexOf(Without(l, j), bet) < |Without(l, j)|
  {
    var i := IndexOf(l, bet);
    assert Without(l, j)[if i < j then i else i - 1].addr == bet;
  }

  lemma BodyUntouched(r: Region, k: nat, o: nat, x: int)
    requires r.Valid() && k < |r.allocs| && o < |r.allocs|
    requires r.allocs[o].addr + HEADER <= x < r.allocs[o].End()
    ensures !Unhooked(r, k, x)
  {
    if o != k {
      RemoveUntouched(r, k, o, x);
    }
  }

  lemma UnlinkKeeps(m: Mem, m': Mem, l: Layout, j: nat, k: nat, i: nat, b: nat)
    requires ValidLayout(l, |m|) && j < |l| && k < |l[j].allocs| && i < |l| && b < |l[i].allocs|
    requires Unlinked(m, m', l[j], k) && OnlyIn(m, m', l[j])
    ensures forall x :: 0 <= x < |m| && l[i].allocs[b].addr + HEADER <= x < l[i].allocs[b].End() ==> m'[x] == m[x]
    ensures Kept(m, m', l[i].allocs[b])
  {
    hide Word, MajorAt, MinorAt, Unhooked;
    var p := l[i].allocs[b];
    forall x | 0 <= x < |m| && p.addr + HEADER <= x < p.End() ensures m'[x] == m[x] {
      if i == j {
        BodyUntouched(l[j], k, b, x);
      } else {
        assert Apart(l[i], l[j]);
      }
    }
    KeptInside(m, m', l[i], b);
  }

  lemma DeadIsAlien(m: Mem, r: Region, k: nat)
    requires r.Valid() && r.End() <= |m| && k < |r.allocs| && HiddenByte(m, r.allocs[k])
    requires MinorAt(m, r.allocs[k].addr).magic == DEAD
    ensures Alien(m, r.allocs[k].UserPtr()) && Unalign(m, r.allocs[k].UserPtr()) == r.allocs[k].addr + HEADER
  {
    hide Word, MinorAt;
    HiddenByteLeadsBack(m, r.allocs[k]);
  }

  /** Everything unlinking keeps and establishes. */
  lemma UnlinkedMajor(m: Mem, m': Mem, root: int, l: Layout, p: int)
    requires Rep(m, root, l) && ValidLayout(l, |m|) && Live(l, p)
    requires var (j, k) := Locate(l, p); Unlinked(m, m', l[j], k) && MinorAt(m', Block(l, p).addr).magic == DEAD
    ensures var (j, k) := Locate(l, p);
            var l' := l[j := l[j].Remove(k)];
            && |m'| == |m| && Rep(m', root, l') && ValidLayout(l', |m|)
            && InUse(l') == InUse(l) - l[j].allocs[k].size && Allocated(l') == Allocated(l)
            && KeepsUsers(m, m', l) && Confined(m, m', l) && OnlyIn(m, m', l[j])
            && Alien(m', p) && Unalign(m', p) == Block(l, p).addr + HEADER
            && |l[j].Remove(k).allocs| == |l[j].allocs| - 1
            && forall addr :: IndexOf(l', addr) == IndexOf(l, addr)
  {
    hide Rep, Word, MajorAt, MinorAt, Kept, Confined, OnlyIn, Apart, Region.Valid, InUse, Allocated, IndexOf, Region.Remove,
         HiddenByte, Alien, AllocRep, Alloc.UserPtr;
    var (j, k) := Locate(l, p);
    RemoveLength(l[j], k);
    RemoveRep(m, m', root, l, j, k);
    RemoveConfined(m, m', l[j], k);
    OnlyInConfined(m, m', l, j);
    RemoveTotals(l, j, k);
    RemoveValid(l[j], k);
    UpdateValid(l, |m|, j, l[j].Remove(k));
    forall i, b | 0 <= i < |l| && 0 <= b < |l[i].allocs| ensures Kept(m, m', l[i].allocs[b]) {
      UnlinkKeeps(m, m', l, j, k, i, b);
    }
    FreedIsAlien(m, m', root, l, p);
    forall addr {
      SameAddresses(l, l[j := l[j].Remove(k)], addr);
    }
  }

  lemma FreedIsAlien(m: Mem, m': Mem, root: int, l: Layout, p: int)
    requires Rep(m, root, l) && ValidLayout(l, |m|) && Live(l, p)
    requires var (j, k) := Locate(l, p);
             Unlinked(m, m', l[j], k) && OnlyIn(m, m', l[j]) && MinorAt(m', Block(l, p).addr).magic == DEAD
    ensures Alien(m', p) && Unalign(m', p) == Block(l, p).addr + HEADER
  {
    hide Word, MajorAt, MinorAt, HiddenByte, Alien, Unhooked, Region.Remove;
    var (j, k) := Locate(l, p);
    assert AllocRep(m, l[j], k);
    UnlinkKeeps(m, m', l, j, k, j, k);
    HiddenByteFrame(m, m', l[j].allocs[k]);
    DeadIsAlien(m', l[j], k);
  }

  lemma HeaderAddresses(l: Layout, limit: int, j: nat)
    requires ValidLayout(l, limit) && j < |l|
    ensures var h := MajorHeader(l, j);
            && (h.prev == 0 || (j > 0 && h.prev == l[j - 1].addr))
            && (h.next == 0 || (j + 1 < |l| && h.next == l[j + 1].addr))
  {
  }

  lemma AlienFrame(m: Mem, m': Mem, a: Alloc)
    requires 0 <= a.addr && a.End() <= |m| && 0 <= a.req && a.req + ALIGNMENT + ALIGN_INFO <= a.size && |m'| == |m|
    requires forall x :: 0 <= x < |m| && a.addr <= x < a.End() ==> m'[x] == m[x]
    requires Unalign(m, a.UserPtr()) == a.addr + HEADER && Alien(m, a.UserPtr())
    ensures Alien(m', a.UserPtr()) && Unalign(m', a.UserPtr()) == a.addr + HEADER
  {
    hide Word, MajorAt, MinorAt;
    AlignBounds(a);
    HeaderFrame(m, m', a.addr);
  }

  /** Dropping the emptied major keeps what unlinking kept. */
  lemma DroppedMajor(l: Layout, l1: Layout, m: Mem, m1: Mem, m': Mem, j: nat, k: nat)
    requires ValidLayout(l, |m|) && j < |l| && k < |l[j].allocs| && l1 == l[j := l[j].Remove(k)] && |l[j].allocs| == 1
    requires KeepsUsers(m, m1, l) && Confined(m, m1, l)
    requires OnlyHeaders(m1, m', MajorHeader(l1, j).prev, MajorHeader(l1, j).next)
    ensures KeepsUsers(m, m', l) && Confined(m, m', l) && Without(l1, j) == Release(l, j, k)
    ensures |m'| == |m1| == |m| && forall x :: 0 <= x < |m| && l[j].addr <= x < l[j].End() ==> m'[x] == m1[x]
  {
    hide Region.Valid, Kept, Apart;
    HeaderAddresses(l, |m|, j);
    var h := MajorHeader(l, j);
    assert MajorHeader(l1, j).prev == h.prev && MajorHeader(l1, j).next == h.next;
    HeadersKeep(m1, m', l, h.prev, h.next);
    KeepsTransitive(m, m1, m', l, l);
    DropConfined(l, m1, m', j);
    forall x | 0 <= x < |m| && l[j].addr <= x < l[j].End() ensures m'[x] == m1[x] {
      if j > 0 { MajorsApart(l, |m|, j, j - 1, x); }
      if j + 1 < |l| { MajorsApart(l, |m|, j, j + 1, x); }
    }
  }

  lemma DropConfined(l: Layout, m: Mem, m': Mem, j: nat)
    requires ValidLayout(l, |m|) && j < |l| && OnlyHeaders(m, m', MajorHeader(l, j).prev, MajorHeader(l, j).next)
    ensures Confined(m, m', l)
  {
    HeaderAddresses(l, |m|, j);
    assert j > 0 ==> l[j - 1].Valid();
    assert j + 1 < |l| ==> l[j + 1].Valid();
    forall x | 0 <= x < |m| && !InRegions(l, x) ensures m'[x] == m[x] {
      assert j > 0 ==> !(l[j - 1].addr <= x < l[j - 1].End());
      assert j + 1 < |l| ==> !(l[j + 1].addr <= x < l[j + 1].End());
    }
  }

  lemma FreeUnlinkedDrop(l: Layout, l1: Layout, m: Mem, m1: Mem, m': Mem, p: int)
    requires ValidLayout(l, |m|) && Live(l, p)
    requires var (j, k) := Locate(l, p);
             && l1 == l[j := l[j].Remove(k)] && |l[j].allocs| == 1
             && OnlyHeaders(m1, m', MajorHeader(l1, j).prev, MajorHeader(l1, j).next)
    requires KeepsUsers(m, m1, l) && Confined(m, m1, l) && Alien(m1, p) && Unalign(m1, p) == Block(l, p).addr + HEADER
    requires OnlyIn(m, m1, l[Locate(l, p).0])
    ensures FreeUnlinked(l, m, Without(l1, Locate(l, p).0), m', p)
  {
    hide KeepsUsers, Confined, Alien, Unalign, Alloc.UserPtr, Without, OnlyLinks;
    var (j, k) := Locate(l, p);
    assert l[j].Valid() && Block(l, p) == l[j].allocs[k];
    DroppedMajor(l, l1, m, m1, m', j, k);
    AlienFrame(m1, m', Block(l, p));
    DroppedLinks(l, l1, m, m1, m', j);
  }

  /** Dropping a major writes headers of majors that stay. */
  lemma DroppedLinks(l: Layout, l1: Layout, m: Mem, m1: Mem, m': Mem, j: nat)
    requires ValidLayout(l, |m|) && j < |l| && |l1| == |l| && l1[j].addr == l[j].addr
    requires forall i :: 0 <= i < |l| ==> l1[i].addr == l[i].addr
    requires OnlyIn(m, m1, l[j]) && OnlyHeaders(m1, m', MajorHeader(l1, j).prev, MajorHeader(l1, j).next)
    ensures OnlyLinks(l[j], Without(l1, j), m, m')
  {
    hide ValidLayout;
    var l', h := Without(l1, j), MajorHeader(l1, j);
    assert forall x :: h.prev != 0 && InHeader(h.prev, x) ==> j > 0 && InHeader(l'[j - 1].addr, x);
    assert forall x :: h.next != 0 && InHeader(h.next, x) ==> j + 1 < |l| && InHeader(l'[j].addr, x);
    forall x | 0 <= x < |m| && !(l[j].addr <= x < l[j].End()) && !InMajorHeader(l', x) ensures m'[x] == m[x] {
      assert m1[x] == m[x];
    }
  }

  lemma FreeUnlinkedKeep(l: Layout, m: Mem, m': Mem, p: int)
    requires Live(l, p) && KeepsUsers(m, m', l) && Confined(m, m', l) && Alien(m', p) && OnlyIn(m, m', l[Locate(l, p).0])
    requires Unalign(m', p) == Block(l, p).addr + HEADER
    requires |l[Locate(l, p).0].allocs| != 1
    ensures var (j, k) := Locate(l, p); FreeUnlinked(l, m, l[j := l[j].Remove(k)], m', p)
  {
  }

  lemma FreeNoneEmpty(l: Layout, limit: int, m: Mem, l': Layout, m': Mem, p: int)
    requires ValidLayout(l, limit) && NoneEmpty(l) && FreeUnlinked(l, m, l', m', p)
    ensures NoneEmpty(l')
  {
    hide KeepsUsers, Confined, Alien, ValidLayout, Alloc.UserPtr;
    var (j, k) := Locate(l, p);
    ReleaseValid(l, limit, j, k);
  }

  lemma LiveSize(r: Region, k: nat)
    requires k < |r.allocs|
    ensures MinorHeader(r, k).block == r.addr && MinorHeader(r, k).size == r.allocs[k].size
    ensures MinorHeader(r, k).req == r.allocs[k].req && MinorHeader(r, k).magic == MAGIC
  {
  }

  lemma EmptiedMajor(m: Mem, root: int, l: Layout, j: nat)
    requires Rep(m, root, l) && ValidLayout(l, |m|) && j < |l|
    ensures InMem(m, l[j].addr, HEADER) && (MajorAt(m, l[j].addr).first == 0 <==> l[j].allocs == [])
    ensures MajorAt(m, l[j].addr).pages == l[j].pages && 0 < l[j].pages
  {
    hide Word, MajorAt;
    ReadMajor(m, root, l, j);
  }

  lemma BetInfo(m: Mem, root: int, l: Layout, bet: int, j: nat)
    requires Rep(m, root, l) && ValidLayout(l, |m|) && j < |l| && IndexOf(l, bet) < |l|
    ensures InMem(m, bet, HEADER) && InMem(m, l[j].addr, HEADER) && IndexOf(l, l[j].addr) == j && l[j].addr != 0
    ensures MajorAt(m, bet).size - MajorAt(m, bet).usage == l[IndexOf(l, bet)].Free()
    ensures MajorAt(m, l[j].addr).size - MajorAt(m, l[j].addr).usage == l[j].Free()
  {
    hide Word, MajorAt;
    ReadMajor(m, root, l, IndexOf(l, bet));
    ReadMajor(m, root, l, j);
    IndexOfIs(l, |m|, j);
  }
}
