/** The contract of malloc, and the bookkeeping of its scan over the majors. */
module HeapOutcome {
  import opened Memory
  import opened HeapLayout
  import opened HeapSearch
  import opened HeapHeaders
  import opened HeapFrames

  ghost predicate Cleared(m: Mem, p: int, n: int) {
    0 <= p && p + n <= |m| && forall x :: p <= x < p + n ==> m[x] == 0
  }

  /** What malloc promises about memory when it hands out `p` from gap `k` of major `j` of `l`. */
  ghost predicate Handed(l: Layout, m: Mem, m': Mem, j: nat, k: nat, size: int, req: int, p: int)
    requires j < |l| && k <= |l[j].allocs|
  {
    && KeepsUsers(m, m', l) && Confined(m, m', l)
    && p == NewAlloc(l[j], k, size, req).UserPtr() && p != 0
    && (l[j].allocs == [] || k < |l[j].allocs| ==> Cleared(m', p, req))
  }

  /** Malloc with first-fit scan start `start`, on layout `l` in memory `m`. */
  ghost predicate MallocOutcome(l: Layout, m: Mem, l': Layout, m': Mem, start: nat, size: int, req: int, run: int, p: int)
    requires start <= |l| && 0 <= size
  {
    var j, k := Target(l, size + HEADER, start), SpotIn(l, start, size + HEADER);
    && l' == Malloced(l, start, size, req, run)
    && (p == 0 <==> j == |l| && run == 0)
    && (p == 0 ==> m' == m)
    && (p != 0 ==>
          && KeepsUsers(m, m', l) && Confined(m, m', l')
          && j < |l'| && k < |l'[j].allocs| && p == l'[j].allocs[k].UserPtr()
          && l'[j].allocs[k].size == size && l'[j].allocs[k].req == req
          && (k + 1 < |l'[j].allocs| || |l'[j].allocs| == 1 ==> Cleared(m', p, req)))
  }

  // ---------------------------------------------------------------- the scan

  /** The majors the scan has passed so far do not fit. */
  ghost predicate Scanning(l: Layout, need: int, start: nat, startedBet: bool, j: nat) {
    && start < |l| && j < |l|
    && if startedBet then FitRegionFrom(l, need, start) == FitRegionFrom(l, need, j)
       else && FitRegionFrom(l, need, 0) == FitRegionFrom(l, need, j)
            && (start == 0 || FitRegionFrom(l, need, start) == |l|)
  }

  lemma ScanStep(l: Layout, need: int, start: nat, startedBet: bool, j: nat)
    requires Scanning(l, need, start, startedBet, j)
    ensures Fits(l[j], need) ==> Target(l, need, start) == j
    ensures !Fits(l[j], need) && j + 1 < |l| ==> Scanning(l, need, start, startedBet, j + 1)
    ensures !Fits(l[j], need) && j + 1 == |l| && startedBet ==> Scanning(l, need, start, false, 0)
    ensures !Fits(l[j], need) && j + 1 == |l| && !startedBet ==> Target(l, need, start) == |l|
  {
  }

  lemma ScanBegins(l: Layout, need: int, start: nat, startedBet: bool, j: nat)
    requires l != [] && start < |l| && j == if startedBet then start else 0
    requires !startedBet ==> start == 0
    ensures Scanning(l, need, start, startedBet, j)
  {
  }

  /** Deciding whether to start at the best bet. */
  lemma StartIs(l: Layout, bet: int, need: int)
    requires bet == 0 || IndexOf(l, bet) < |l|
    ensures StartOf(l, bet, need) == if bet != 0 && l[IndexOf(l, bet)].Free() > need then IndexOf(l, bet) else 0
  {
  }

  lemma SupplierAsked(l: Layout, limit: int, start: nat, size: int, run: int)
    requires start <= |l| && 0 <= size && SupplierReady(l, limit, start, size, run)
    requires Target(l, size + HEADER, start) == |l|
    ensures run == 0 || FreshRun(l, limit, run, PagesFor(size))
  {
  }

  /** What the loop reads in the header of the major it looks at. */
  lemma MajorInfo(m: Mem, root: int, l: Layout, j: nat, need: int)
    requires Rep(m, root, l) && ValidLayout(l, |m|) && j < |l|
    ensures l[j].addr != 0 && InMem(m, l[j].addr, HEADER) && IndexOf(l, l[j].addr) == j
    ensures root == l[0].addr && root != 0
    ensures var h := MajorAt(m, l[j].addr);
            && h.size - h.usage == l[j].Free()
            && (if j + 1 < |l| then h.next == l[j + 1].addr && h.next != 0 else h.next == 0)
    ensures l[j].Free() < need ==> !Fits(l[j], need)
  {
    hide Word, MajorAt, AllocRep;
    ReadMajor(m, root, l, j);
    IndexOfIs(l, |m|, j);
    if Fits(l[j], need) {
      NoGapBeyondFree(l[j], Fit(l[j], need));
    }
  }

  /** Majors without minors, which only exist while malloc runs, have room for the request. */
  ghost predicate EmptiesFit(l: Layout, need: int) {
    forall j :: 0 <= j < |l| && l[j].allocs == [] ==> l[j].Gap(0) >= need
  }

  lemma EmptyMajor(l: Layout, need: int, j: nat)
    requires j < |l| && EmptiesFit(l, need)
    ensures l[j].allocs == [] ==> l[j].Gap(0) >= need
  {
  }

  lemma FreshFits(l: Layout, j: nat, need: int)
    requires j < |l| && EmptiesFit(l, need) && l[j].allocs == []
    ensures Fits(l[j], need) && Fit(l[j], need) == 0
  {
  }

  /** The page supplier answers with no pages or, if malloc will have to ask, with a fresh run. */
  ghost predicate SupplierReady(l: Layout, limit: int, start: nat, size: int, run: int)
    requires start <= |l| && 0 <= size
  {
    run == 0 || (Target(l, size + HEADER, start) == |l| ==> FreshRun(l, limit, run, PagesFor(size)))
  }

  /** The scan failed and a new major was appended. */
  ghost predicate Grown(l: Layout, m: Mem, l': Layout, m': Mem, start: nat, size: int, run: int) {
    && start <= |l| && 0 <= size && run != 0 && Target(l, size + HEADER, start) == |l|
    && l' == l + [NewRegion(run, size)]
    && KeepsUsers(m, m', l) && Confined(m, m', l')
  }

  lemma GrownIntro(l: Layout, m: Mem, l': Layout, m': Mem, start: nat, size: int, run: int)
    requires start <= |l| && 0 <= size && run != 0 && Target(l, size + HEADER, start) == |l|
    requires l' == l + [NewRegion(run, size)] && l'[|l'| - 1].Gap(0) >= size + HEADER
    requires KeepsUsers(m, m', l) && Confined(m, m', l') && EmptiesFit(l, size + HEADER)
    ensures Grown(l, m, l', m', start, size, run) && EmptiesFit(l', size + HEADER)
    ensures |l'| == |l| + 1 && l'[|l|].addr == run
  {
    hide KeepsUsers, Confined, Target;
  }

  lemma GrownLast(l: Layout, m: Mem, l': Layout, m': Mem, start: nat, size: int, run: int)
    requires Grown(l, m, l', m', start, size, run)
    ensures |l'| == |l| + 1 && l'[|l|].allocs == [] && 0 <= size && l'[|l|] == NewRegion(run, size) && l'[|l|].addr == run
  {
  }

  // ---------------------------------------------------------------- outcomes

  lemma OutcomeLayout(l: Layout, m: Mem, l': Layout, m': Mem, start: nat, size: int, req: int, run: int, p: int)
    requires start <= |l| && 0 <= size && MallocOutcome(l, m, l', m', start, size, req, run, p)
    ensures l' == Malloced(l, start, size, req, run)
  {
  }

  lemma OutcomeNone(l: Layout, m: Mem, start: nat, size: int, req: int, run: int)
    requires start <= |l| && 0 <= size && Target(l, size + HEADER, start) == |l| && run == 0
    ensures MallocOutcome(l, m, l, m, start, size, req, run, 0)
  {
  }

  lemma PlaceExtents(l: Layout, j: nat, k: nat, size: int, req: int, m: Mem, m': Mem)
    requires j < |l| && k <= |l[j].allocs| && Confined(m, m', l)
    ensures Confined(m, m', Place(l, j, k, size, req))
  {
    var l' := Place(l, j, k, size, req);
    assert l'[j].addr == l[j].addr && l'[j].End() == l[j].End();
    forall x | InRegions(l, x) ensures InRegions(l', x) {
      var i :| 0 <= i < |l| && l[i].addr <= x < l[i].End();
      assert l'[i].addr <= x < l'[i].End();
    }
  }

  lemma Placed(l: Layout, j: nat, k: nat, size: int, req: int)
    requires j < |l| && k <= |l[j].allocs|
    ensures var l' := Place(l, j, k, size, req);
            && |l'| == |l| && |l'[j].allocs| == |l[j].allocs| + 1 && l'[j].allocs[k] == NewAlloc(l[j], k, size, req)
  {
  }

  lemma OutcomeExisting(l: Layout, m: Mem, m': Mem, start: nat, size: int, req: int, run: int, p: int)
    requires start <= |l| && 0 <= size
    requires var j := Target(l, size + HEADER, start);
             j < |l| && Handed(l, m, m', j, Fit(l[j], size + HEADER), size, req, p)
    ensures MallocOutcome(l, m, Malloced(l, start, size, req, run), m', start, size, req, run, p)
    ensures var j := Target(l, size + HEADER, start);
            Malloced(l, start, size, req, run) == Place(l, j, Fit(l[j], size + HEADER), size, req)
  {
    hide KeepsUsers, Confined, Cleared, Place, Fit, Target;
    var j := Target(l, size + HEADER, start);
    var k := Fit(l[j], size + HEADER);
    PlaceExtents(l, j, k, size, req, m, m');
    Placed(l, j, k, size, req);
  }

  lemma OutcomeNew(l: Layout, m: Mem, l1: Layout, m1: Mem, m': Mem, start: nat, size: int, req: int, run: int, p: int)
    requires Grown(l, m, l1, m1, start, size, run) && |l1| == |l| + 1
    requires Handed(l1, m1, m', |l|, 0, size, req, p)
    ensures MallocOutcome(l, m, Malloced(l, start, size, req, run), m', start, size, req, run, p)
    ensures Malloced(l, start, size, req, run) == Place(l1, |l|, 0, size, req)
  {
    hide KeepsUsers, Cleared, Place, Fit, Target, InRegions;
    NewKeeps(l, NewRegion(run, size), m, m1, m');
    assert l1[|l|] == NewRegion(run, size);
    assert Confined(m, m', l1);
    PlaceExtents(l1, |l|, 0, size, req, m, m');
    Placed(l1, |l|, 0, size, req);
  }

  lemma NewKeeps(l: Layout, r: Region, m: Mem, m1: Mem, m': Mem)
    requires KeepsUsers(m, m1, l) && KeepsUsers(m1, m', l + [r])
    ensures KeepsUsers(m, m', l)
  {
    hide Kept;
    KeepsTransitive(m, m1, m', l, l + [r]);
  }

  lemma OutcomeNoneEmpty(l: Layout, m: Mem, l': Layout, m': Mem, start: nat, size: int, req: int, run: int, p: int)
    requires start <= |l| && 0 <= size && NoneEmpty(l) && MallocOutcome(l, m, l', m', start, size, req, run, p)
    ensures NoneEmpty(l')
  {
    hide KeepsUsers, Confined, Cleared, Fit, Target, PagesFor;
  }

  lemma NoneEmptyFit(l: Layout, need: int)
    requires NoneEmpty(l)
    ensures EmptiesFit(l, need)
  {
  }

  /** The very first call: `Initialise`, then a scan that finds the new major at once. */
  lemma OutcomeFirst(m: Mem, m1: Mem, l': Layout, m': Mem, size: int, req: int, run: int, p: int)
    requires 0 <= size && run != 0 && Confined(m, m1, [NewRegion(run, size)])
    requires NewRegion(run, size).Gap(0) >= size + HEADER
    requires MallocOutcome([NewRegion(run, size)], m1, l', m', 0, size, req, run, p)
    ensures MallocOutcome([], m, l', m', 0, size, req, run, p)
  {
    hide PagesFor, Cleared, InRegions;
    var l1 := [NewRegion(run, size)];
    FreshFits(l1, 0, size + HEADER);
    assert Target(l1, size + HEADER, 0) == 0;
    assert [] + l1 == l1;
    PlaceExtents(l1, 0, 0, size, req, m, m1);
  }

  lemma RootFacts(m: Mem, root: int, l: Layout)
    requires Rep(m, root, l) && ValidLayout(l, |m|)
    ensures root == 0 <==> l == []
  {
  }

  lemma FirstRun(limit: int, size: int, run: int)
    requires 0 <= size && SupplierReady([], limit, 0, size, run)
    ensures run == 0 || FreshRun([], limit, run, PagesFor(size))
    ensures Target([], size + HEADER, 0) == 0
  {
  }

  lemma FirstReady(limit: int, size: int, run: int)
    requires 0 <= size && NewRegion(run, size).Gap(0) >= size + HEADER
    ensures EmptiesFit([NewRegion(run, size)], size + HEADER)
    ensures SupplierReady([NewRegion(run, size)], limit, 0, size, run)
    ensures StartOf([NewRegion(run, size)], 0, size + HEADER) == 0
  {
    var l := [NewRegion(run, size)];
    FreshFits(l, 0, size + HEADER);
  }

  // ---------------------------------------------------------------- 32-bit sizes

  /** The requests for which none of malloc's 32-bit sums wraps around. */
  predicate RequestFits(req: int) {
    0 <= req && req + ALIGNMENT + ALIGN_INFO + HEADER + HEADER <= WORD_LIMIT - PAGE
  }

  /** The request malloc serves: the one whose padded size wraps around to 0 is served as a request of 1 byte. */
  function Served(req: nat): (r: nat)
    ensures RequestFits(req) ==> r == req
  {
    if req + ALIGNMENT + ALIGN_INFO == WORD_LIMIT then 1 else req
  }

  /** The pages `allocate_new_page` asks for when it needs `st` bytes. */
  function PagesOf(st: int): (pages: int) {
    var pages := if st % PAGE == 0 then st / PAGE else st / PAGE + 1;
    if pages < PAGE_COUNT then PAGE_COUNT else pages
  }

  /** The bytes of these pages on behalf of a request, every sum and product taken modulo 2^32 as the code
      takes them. */
  function RunBytes32(req: int): int {
    var size := (req + ALIGNMENT + ALIGN_INFO) % WORD_LIMIT;
    var st := (size + HEADER + HEADER) % WORD_LIMIT;
    PagesOf(st) * PAGE % WORD_LIMIT
  }

  /** A request is served with enough pages exactly when no sum wraps. */
  lemma RunCoversRequest(req: int)
    requires 0 <= req < WORD_LIMIT
    ensures RunBytes32(req) >= req + ALIGNMENT + ALIGN_INFO + HEADER + HEADER <==> RequestFits(req)
    ensures RequestFits(req) ==> RunBytes32(req) == PagesFor(req + ALIGNMENT + ALIGN_INFO) * PAGE
  {
    hide RunBytes32, PagesFor;
    if RequestFits(req) {
      RunFits(req);
    } else {
      RunFallsShort(req);
    }
  }

  lemma RunFits(req: int)
    requires RequestFits(req)
    ensures RunBytes32(req) == PagesFor(req + ALIGNMENT + ALIGN_INFO) * PAGE
  {
    hide PagesFor, PagesOf;
    var size := req + ALIGNMENT + ALIGN_INFO;
    PagesAre(size);
  }

  lemma PagesAre(size: int)
    requires 0 <= size && size + HEADER + HEADER <= WORD_LIMIT - PAGE
    ensures PagesFor(size) == PagesOf(size + HEADER + HEADER) && 0 < PagesFor(size) * PAGE < WORD_LIMIT
  {
  }

  lemma RunFallsShort(req: int)
    requires 0 <= req < WORD_LIMIT && !RequestFits(req)
    ensures RunBytes32(req) < req + ALIGNMENT + ALIGN_INFO + HEADER + HEADER
  {
    hide PagesOf;
    var size := (req + ALIGNMENT + ALIGN_INFO) % WORD_LIMIT;
    var st := (size + HEADER + HEADER) % WORD_LIMIT;
    if req + ALIGNMENT + ALIGN_INFO + HEADER + HEADER >= WORD_LIMIT {
      assert 0 <= st < 2 * (ALIGNMENT + ALIGN_INFO + HEADER);
      FewPages(st);
    } else {
      assert WORD_LIMIT - PAGE < st;
      AllPages(st);
    }
  }

  lemma FewPages(st: int)
    requires 0 <= st < PAGE
    ensures PagesOf(st) == PAGE_COUNT
  {
  }

  lemma AllPages(st: int)
    requires WORD_LIMIT - PAGE < st < WORD_LIMIT
    ensures PagesOf(st) * PAGE == WORD_LIMIT
  {
  }
}
