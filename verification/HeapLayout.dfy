/** What the heap's headers describe: a sequence of regions (the majors, runs of
    pages obtained from the page supplier), each holding a sequence of
    allocations (the minors) in ascending address order. */
module HeapLayout {
  import opened Memory

  const PAGE := 4096        // l_pageSize
  const PAGE_COUNT := 16    // l_pageCount, the least number of pages requested
  const ALIGNMENT := 16
  const ALIGN_INFO := 16

  /** A minor: header at `addr`, then `size` bytes, of which the caller asked for `req`. */
  datatype Alloc = Alloc(addr: int, size: int, req: int) {
    function End(): int { addr + HEADER + size }

    /** The address the caller is given: the ALIGN macro applied to the first byte after the header. */
    function UserPtr(): int { AlignUp(addr + HEADER) }
  }

  /** A major. */
  datatype Region = Region(addr: int, pages: int, allocs: seq<Alloc>) {
    function Bytes(): int { pages * PAGE }

    function End(): int { addr + Bytes() }

    /** Gap `k` lies before allocation `k`, or at the end when `k == |allocs|`. */
    function GapStart(k: nat): int
      requires k <= |allocs|
    {
      if k == 0 then addr + HEADER else allocs[k - 1].End()
    }

    function GapEnd(k: nat): int
      requires k <= |allocs|
    {
      if k == |allocs| then End() else allocs[k].addr
    }

    function Gap(k: nat): int
      requires k <= |allocs|
    {
      GapEnd(k) - GapStart(k)
    }

    /** The `usage` field: the major's own header plus every minor with its header. */
    function Usage(): int { HEADER + HEADER * |allocs| + Sizes(allocs) }

    function Free(): int { Bytes() - Usage() }

    function Insert(k: nat, a: Alloc): Region
      requires k <= |allocs|
    {
      this.(allocs := allocs[..k] + [a] + allocs[k..])
    }

    function Remove(k: nat): Region
      requires k < |allocs|
    {
      this.(allocs := allocs[..k] + allocs[k + 1..])
    }

    ghost predicate Valid() {
      && 0 < addr && addr % PAGE == 0 && 0 < pages
      && (forall i :: 0 <= i < |allocs| ==>
            && addr + HEADER <= allocs[i].addr && allocs[i].End() <= End()
            && 0 <= allocs[i].req && allocs[i].req + ALIGNMENT + ALIGN_INFO <= allocs[i].size)
      && (forall i, j :: 0 <= i < j < |allocs| ==> allocs[i].End() <= allocs[j].addr)
    }
  }

  type Layout = seq<Region>

  function AlignUp(a: int): int {
    var p := a + ALIGN_INFO;
    if p % ALIGNMENT == 0 then p else p + ALIGNMENT - p % ALIGNMENT
  }

  function Sizes(s: seq<Alloc>): int {
    if s == [] then 0 else s[0].size + Sizes(s[1..])
  }

  /** What `l_inuse` counts. */
  function InUse(l: Layout): int {
    if l == [] then 0 else Sizes(l[0].allocs) + InUse(l[1..])
  }

  /** What `l_allocated` counts. */
  function Allocated(l: Layout): int {
    if l == [] then 0 else l[0].Bytes() + Allocated(l[1..])
  }

  ghost predicate Apart(r: Region, s: Region) {
    r.End() <= s.addr || s.End() <= r.addr
  }

  /** Regions are well formed, pairwise disjoint and inside a memory of `limit` bytes. */
  ghost predicate ValidLayout(l: Layout, limit: int) {
    && (forall j :: 0 <= j < |l| ==> l[j].Valid() && l[j].End() <= limit)
    && (forall i, j :: 0 <= i < j < |l| ==> Apart(l[i], l[j]))
  }

  lemma UpdateValid(l: Layout, limit: int, j: nat, r: Region)
    requires ValidLayout(l, limit) && j < |l| && r.Valid() && r.addr == l[j].addr && r.pages == l[j].pages
    ensures ValidLayout(l[j := r], limit)
  {
    hide Region.Valid;
    var l' := l[j := r];
    forall i, b | 0 <= i < b < |l'| ensures Apart(l'[i], l'[b]) {
      assert Apart(l[i], l[b]);
    }
  }

  /** No region is empty. */
  ghost predicate NoneEmpty(l: Layout) {
    forall j :: 0 <= j < |l| ==> l[j].allocs != []
  }

  // ---------------------------------------------------------------- alignment

  /** The returned pointer is aligned, leaves room for the hidden byte, and the
      requested bytes fit behind it: the `+= ALIGNMENT + ALIGN_INFO` of malloc is enough. */
  lemma AlignBounds(a: Alloc)
    ensures a.UserPtr() % ALIGNMENT == 0
    ensures a.addr + HEADER + ALIGN_INFO <= a.UserPtr() < a.addr + HEADER + ALIGN_INFO + ALIGNMENT
  {
  }

  // ---------------------------------------------------------------- sums

  lemma {:induction false} SizesAppend(s: seq<Alloc>, t: seq<Alloc>)
    ensures Sizes(s + t) == Sizes(s) + Sizes(t)
  {
    if s == [] {
      assert s + t == t;
    } else {
      assert (s + t)[1..] == s[1..] + t;
      SizesAppend(s[1..], t);
    }
  }

  lemma SizesInsert(s: seq<Alloc>, k: nat, a: Alloc)
    requires k <= |s|
    ensures Sizes(s[..k] + [a] + s[k..]) == Sizes(s) + a.size
  {
    SizesAppend(s[..k] + [a], s[k..]);
    SizesAppend(s[..k], [a]);
    SizesAppend(s[..k], s[k..]);
    assert s == s[..k] + s[k..];
  }

  lemma {:induction false} InUseUpdate(l: Layout, j: nat, r: Region)
    requires j < |l|
    ensures InUse(l[j := r]) == InUse(l) - Sizes(l[j].allocs) + Sizes(r.allocs)
    ensures Allocated(l[j := r]) == Allocated(l) - l[j].Bytes() + r.Bytes()
  {
    if j == 0 {
      assert l[j := r][1..] == l[1..];
    } else {
      assert l[j := r][1..] == l[1..][j - 1 := r];
      InUseUpdate(l[1..], j - 1, r);
    }
  }

  lemma {:induction false} TotalsAppend(l: Layout, t: Layout)
    ensures InUse(l + t) == InUse(l) + InUse(t)
    ensures Allocated(l + t) == Allocated(l) + Allocated(t)
  {
    if l == [] {
      assert l + t == t;
    } else {
      assert (l + t)[1..] == l[1..] + t;
      TotalsAppend(l[1..], t);
    }
  }

  // ---------------------------------------------------------------- gaps

  function GapSum(r: Region, k: nat): int
    requires k <= |r.allocs| + 1
  {
    if k == 0 then 0 else GapSum(r, k - 1) + r.Gap(k - 1)
  }

  lemma {:induction false} GapSumPrefix(r: Region, k: nat)
    requires k <= |r.allocs|
    ensures GapSum(r, k) + HEADER * k + Sizes(r.allocs[..k]) == r.GapStart(k) - r.addr - HEADER
  {
    if k > 0 {
      GapSumPrefix(r, k - 1);
      assert r.allocs[..k] == r.allocs[..k - 1] + [r.allocs[k - 1]];
      SizesAppend(r.allocs[..k - 1], [r.allocs[k - 1]]);
    }
  }

  /** The gaps of a major add up to exactly its size minus its usage. */
  lemma GapsTotal(r: Region)
    ensures GapSum(r, |r.allocs| + 1) == r.Free()
  {
    GapSumPrefix(r, |r.allocs|);
    assert r.allocs[..|r.allocs|] == r.allocs;
  }

  lemma {:induction false} GapSumBounds(r: Region, i: nat, k: nat)
    requires r.Valid() && i < k <= |r.allocs| + 1
    ensures 0 <= r.Gap(i) <= GapSum(r, k)
  {
    assert r.Gap(k - 1) >= 0;
    if k > 1 {
      GapSumBounds(r, if i < k - 1 then i else 0, k - 1);
    }
  }

  /** CASE 1 is right to reject a major without looking at its gaps. */
  lemma NoGapBeyondFree(r: Region, k: nat)
    requires r.Valid() && k <= |r.allocs|
    ensures 0 <= r.Gap(k) <= r.Free()
  {
    GapSumBounds(r, k, |r.allocs| + 1);
    GapsTotal(r);
  }
}
