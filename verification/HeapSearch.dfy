/** Where an allocation goes and what freeing it leaves, on layouts alone. */
module HeapSearch {
  import opened Memory
  import opened HeapLayout

  // ---------------------------------------------------------------- one major

  /** The lowest gap at or after gap `k` that holds `need` bytes, or `|allocs| + 1`. */
  function FitFrom(r: Region, need: int, k: nat): (f: nat)
    requires k <= |r.allocs| + 1
    ensures k <= f <= |r.allocs| + 1
    ensures forall i :: k <= i < f ==> r.Gap(i) < need
    ensures f <= |r.allocs| ==> r.Gap(f) >= need
    decreases |r.allocs| + 1 - k
  {
    if k == |r.allocs| + 1 || r.Gap(k) >= need then k else FitFrom(r, need, k + 1)
  }

  function Fit(r: Region, need: int): nat { FitFrom(r, need, 0) }

  /** Some gap of the major holds `need` bytes. */
  predicate Fits(r: Region, need: int) {
    Fit(r, need) <= |r.allocs|
  }

  /** A gap is found exactly when some gap is big enough, and it is the lowest such gap. */
  lemma FitIsLowest(r: Region, need: int)
    ensures Fits(r, need) <==> exists k: nat :: k <= |r.allocs| && r.Gap(k) >= need
    ensures Fits(r, need) ==> r.Gap(Fit(r, need)) >= need && forall i :: 0 <= i < Fit(r, need) ==> r.Gap(i) < need
  {
    if Fits(r, need) {
      assert r.Gap(Fit(r, need)) >= need;
    }
  }

  // ---------------------------------------------------------------- all majors

  /** The first major at or after `j` with a gap of `need` bytes, or `|l|`. */
  function FitRegionFrom(l: Layout, need: int, j: nat): (f: nat)
    requires j <= |l|
    ensures j <= f <= |l|
    ensures forall i :: j <= i < f ==> !Fits(l[i], need)
    ensures f < |l| ==> Fits(l[f], need)
    decreases |l| - j
  {
    if j == |l| || Fits(l[j], need) then j else FitRegionFrom(l, need, j + 1)
  }

  /** The major malloc settles on when its scan starts at `start`: the scan runs to the
      end of the list and then once more from the root. */
  function Target(l: Layout, need: int, start: nat): (f: nat)
    requires start <= |l|
    ensures f <= |l|
    ensures f < |l| ==> Fits(l[f], need)
  {
    var f := FitRegionFrom(l, need, start);
    if f < |l| then f else FitRegionFrom(l, need, 0)
  }

  /** Search completeness: wherever the scan starts, a new major is requested only
      when no gap of any major is big enough. */
  lemma SearchComplete(l: Layout, need: int, start: nat)
    requires start <= |l|
    ensures Target(l, need, start) == |l| <==>
            forall j, k :: 0 <= j < |l| && 0 <= k <= |l[j].allocs| ==> l[j].Gap(k) < need
  {
    var f := Target(l, need, start);
    if f < |l| {
      assert l[f].Gap(Fit(l[f], need)) >= need;
    } else {
      forall j, k | 0 <= j < |l| && 0 <= k <= |l[j].allocs| ensures l[j].Gap(k) < need {
        assert !Fits(l[j], need);
      }
    }
  }

  // ---------------------------------------------------------------- placing and releasing

  function NewAlloc(r: Region, k: nat, size: int, req: int): Alloc
    requires k <= |r.allocs|
  {
    Alloc(r.GapStart(k), size, req)
  }

  function Place(l: Layout, j: nat, k: nat, size: int, req: int): Layout
    requires j < |l| && k <= |l[j].allocs|
  {
    l[j := l[j].Insert(k, NewAlloc(l[j], k, size, req))]
  }

  function Without(l: Layout, j: nat): Layout
    requires j < |l|
  {
    l[..j] + l[j + 1..]
  }

  /** Free drops the allocation, and its major too when that was the last one in it. */
  function Release(l: Layout, j: nat, k: nat): Layout
    requires j < |l| && k < |l[j].allocs|
  {
    if |l[j].allocs| == 1 then Without(l, j) else l[j := l[j].Remove(k)]
  }

  /** The number of pages `allocate_new_page` asks for. */
  function PagesFor(size: int): (pages: int)
    requires 0 <= size
    ensures PAGE_COUNT <= pages && size + HEADER + HEADER <= pages * PAGE
    ensures pages == PAGE_COUNT || (pages - 1) * PAGE < size + HEADER + HEADER
  {
    var st := size + HEADER + HEADER;
    var pages := if st % PAGE == 0 then st / PAGE else st / PAGE + 1;
    if pages < PAGE_COUNT then PAGE_COUNT else pages
  }

  function NewRegion(run: int, size: int): Region
    requires 0 <= size
  {
    Region(run, PagesFor(size), [])
  }

  /** The layout after malloc. `start` is where the scan starts and `run` is what the page
      supplier answers if asked, 0 for no pages. */
  function Malloced(l: Layout, start: nat, size: int, req: int, run: int): Layout
    requires start <= |l| && 0 <= size
  {
    var j := Target(l, size + HEADER, start);
    if j < |l| then Place(l, j, Fit(l[j], size + HEADER), size, req)
    else if run == 0 then l
    else Place(l + [NewRegion(run, size)], |l|, 0, size, req)
  }

  /** Index of the new block within its major. */
  function SpotIn(l: Layout, start: nat, need: int): nat
    requires start <= |l|
  {
    var j := Target(l, need, start);
    if j < |l| then Fit(l[j], need) else 0
  }

  /** The new allocation lies in its gap. */
  lemma NewAllocFits(r: Region, k: nat, size: int, req: int)
    requires r.Valid() && k <= |r.allocs| && r.Gap(k) >= size + HEADER && size >= 0
    ensures var a := NewAlloc(r, k, size, req);
            && r.addr + HEADER <= a.addr && a.End() <= r.End() && a.size == size && a.req == req
            && (forall i :: 0 <= i < k ==> r.allocs[i].End() <= a.addr)
            && (forall i :: k <= i < |r.allocs| ==> a.End() <= r.allocs[i].addr)
  {
    var a := NewAlloc(r, k, size, req);
    if k > 0 {
      assert forall i :: 0 <= i < k - 1 ==> r.allocs[i].End() <= r.allocs[k - 1].addr;
    }
    if k < |r.allocs| {
      assert a.End() <= r.allocs[k].addr;
    }
  }

  lemma InsertValid(r: Region, k: nat, size: int, req: int)
    requires r.Valid() && k <= |r.allocs| && r.Gap(k) >= size + HEADER
    requires 0 <= req && req + ALIGNMENT + ALIGN_INFO <= size
    ensures r.Insert(k, NewAlloc(r, k, size, req)).Valid()
  {
    hide NewAlloc, Region.Gap, Alloc.End;
    NewAllocFits(r, k, size, req);
  }

  lemma RemoveValid(r: Region, k: nat)
    requires r.Valid() && k < |r.allocs|
    ensures r.Remove(k).Valid()
  {
  }

  lemma ValidRegion(l: Layout, limit: int, j: nat)
    requires ValidLayout(l, limit) && j < |l|
    ensures l[j].Valid() && l[j].End() <= limit
  {
  }

  lemma PlaceValid(l: Layout, limit: int, j: nat, k: nat, size: int, req: int)
    requires ValidLayout(l, limit) && j < |l| && k <= |l[j].allocs| && l[j].Gap(k) >= size + HEADER
    requires 0 <= req && req + ALIGNMENT + ALIGN_INFO <= size
    ensures ValidLayout(Place(l, j, k, size, req), limit)
    ensures InUse(Place(l, j, k, size, req)) == InUse(l) + size
    ensures Allocated(Place(l, j, k, size, req)) == Allocated(l)
  {
    hide ValidLayout, Region.Valid;
    var a := NewAlloc(l[j], k, size, req);
    ValidRegion(l, limit, j);
    InsertValid(l[j], k, size, req);
    UpdateValid(l, limit, j, l[j].Insert(k, a));
    InUseUpdate(l, j, l[j].Insert(k, a));
    SizesInsert(l[j].allocs, k, a);
  }

  /** A fresh run of pages from the supplier: page aligned, inside memory, clear of every live major. */
  ghost predicate FreshRun(l: Layout, limit: int, run: int, pages: int) {
    && 0 < run && run % PAGE == 0 && run + pages * PAGE <= limit
    && forall j :: 0 <= j < |l| ==> Apart(l[j], Region(run, pages, []))
  }

  lemma AppendValid(l: Layout, limit: int, run: int, size: int)
    requires ValidLayout(l, limit) && 0 <= size && FreshRun(l, limit, run, PagesFor(size))
    ensures ValidLayout(l + [NewRegion(run, size)], limit)
    ensures NewRegion(run, size).Gap(0) >= size + HEADER
    ensures InUse(l + [NewRegion(run, size)]) == InUse(l)
    ensures Allocated(l + [NewRegion(run, size)]) == Allocated(l) + NewRegion(run, size).Bytes()
  {
    TotalsAppend(l, [NewRegion(run, size)]);
  }

  lemma ReleaseTotals(l: Layout, j: nat, k: nat)
    requires j < |l| && k < |l[j].allocs|
    ensures InUse(Release(l, j, k)) == InUse(l) - l[j].allocs[k].size
    ensures Allocated(Release(l, j, k)) == Allocated(l) - (if |l[j].allocs| == 1 then l[j].Bytes() else 0)
  {
    hide InUse, Allocated;
    var r := l[j];
    if |r.allocs| == 1 {
      WithoutTotals(l, j);
      assert Sizes(r.allocs) == r.allocs[0].size + Sizes(r.allocs[1..]);
    } else {
      RemoveTotals(l, j, k);
    }
  }

  lemma RemoveTotals(l: Layout, j: nat, k: nat)
    requires j < |l| && k < |l[j].allocs|
    ensures var l' := l[j := l[j].Remove(k)];
            InUse(l') == InUse(l) - l[j].allocs[k].size && Allocated(l') == Allocated(l)
  {
    hide InUse, Allocated;
    var r := l[j];
    InUseUpdate(l, j, r.Remove(k));
    SizesInsert(r.Remove(k).allocs, k, r.allocs[k]);
    assert r.Remove(k).allocs[..k] + [r.allocs[k]] + r.Remove(k).allocs[k..] == r.allocs;
  }

  lemma WithoutTotals(l: Layout, j: nat)
    requires j < |l|
    ensures InUse(l[..j] + l[j + 1..]) == InUse(l) - Sizes(l[j].allocs)
    ensures Allocated(l[..j] + l[j + 1..]) == Allocated(l) - l[j].Bytes()
  {
    hide Sizes, Region.Bytes;
    var r := l[j];
    assert l == l[..j] + ([r] + l[j + 1..]);
    TotalsAppend(l[..j], [r] + l[j + 1..]);
    TotalsAppend([r], l[j + 1..]);
    TotalsAppend(l[..j], l[j + 1..]);
    assert InUse([r]) == Sizes(r.allocs) && Allocated([r]) == r.Bytes();
  }

  lemma ReleaseValid(l: Layout, limit: int, j: nat, k: nat)
    requires ValidLayout(l, limit) && NoneEmpty(l) && j < |l| && k < |l[j].allocs|
    ensures ValidLayout(Release(l, j, k), limit) && NoneEmpty(Release(l, j, k))
  {
    hide Region.Valid;
    if |l[j].allocs| > 1 {
      RemoveValid(l[j], k);
      UpdateValid(l, limit, j, l[j].Remove(k));
    }
  }

  /** Releasing the block malloc just placed gives back the very same layout, dropping the major
      if malloc had to obtain one. */
  lemma ReleaseUndoesMalloc(l: Layout, start: nat, size: int, req: int, run: int)
    requires NoneEmpty(l) && start <= |l| && 0 <= size
    requires Target(l, size + HEADER, start) < |l| || run != 0
    ensures var l', j, k := Malloced(l, start, size, req, run), Target(l, size + HEADER, start), SpotIn(l, start, size + HEADER);
            && j < |l'| && k < |l'[j].allocs| && Release(l', j, k) == l
            && l'[j].allocs[k].size == size && l'[j].allocs[k].req == req
  {
    var l', j := Malloced(l, start, size, req, run), Target(l, size + HEADER, start);
    var k := SpotIn(l, start, size + HEADER);
    if j < |l| {
      assert l'[j].Remove(k).allocs == l[j].allocs;
      assert l'[j].Remove(k) == l[j];
    }
    assert Release(l', j, k) == l;
  }
}
