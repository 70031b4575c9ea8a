/** The allocator itself: `new_malloc`, `new_free` and `new_realloc` of mm/heap.c, working in
    place on the byte memory through header pointers. */
module HeapClass {
  import opened Memory
  import opened HeapLayout
  import opened HeapSearch
  import opened HeapHeaders
  import opened HeapRelink
  import opened HeapFrames
  import opened HeapOutcome
  import opened HeapBet
  import opened HeapFree
  import opened HeapContents
  import opened HeapWrites
  import opened HeapRelease

  /** What a header-writing step needs to know of the major it works on. */
  ghost predicate MajorReady(m: Mem, r: Region) {
    && r.Valid() && r.End() <= |m| <= WORD_LIMIT && InMem(m, r.addr, HEADER)
    && MajorAt(m, r.addr).usage == r.Usage() && MajorAt(m, r.addr).first == FirstAlloc(r)
    && MajorAt(m, r.addr).size == r.Bytes()
  }

  /** The header writes are right once the new header, its two neighbours and the major are. */
  lemma HookedIntro(m: Mem, m': Mem, r: Region, k: nat, a: Alloc)
    requires MajorReady(m, r) && k <= |r.allocs| && |m'| == |m| && r.Gap(k) >= a.size + HEADER && a.size >= 0
    requires a.addr == r.GapStart(k)
    requires (k > 0 ==> AllocRep(m, r, k - 1)) && (k < |r.allocs| ==> AllocRep(m, r, k))
    requires InMem(m, a.addr, HEADER)
          && MinorAt(m', a.addr) == Minor(if k == 0 then 0 else r.allocs[k - 1].addr,
                                          if k == |r.allocs| then 0 else r.allocs[k].addr,
                                          r.addr, MAGIC, a.size, a.req)
    requires k > 0 ==> MinorAt(m', r.allocs[k - 1].addr) == MinorAt(m, r.allocs[k - 1].addr).(next := a.addr)
    requires k < |r.allocs| ==> MinorAt(m', r.allocs[k].addr) == MinorAt(m, r.allocs[k].addr).(prev := a.addr)
    requires MajorAt(m', r.addr) == var h := MajorAt(m, r.addr);
               h.(usage := h.usage + a.size + HEADER, first := if k == 0 then a.addr else h.first)
    ensures Hooked(m, m', r, k, a)
  {
    hide Word, MajorAt, MinorAt, Region.Valid;
    var s := r.Insert(k, a).allocs;
    assert s[k] == a && (k > 0 ==> s[k - 1] == r.allocs[k - 1]) && (k < |r.allocs| ==> s[k + 1] == r.allocs[k]);
  }

  /** A new block was linked in at gap `k` and `p` handed out; cleared, except at the end of a used major. */
  ghost predicate Squeezed(m: Mem, m': Mem, r: Region, k: nat, size: int, req: int, p: int)
    requires k <= |r.allocs|
  {
    var a := NewAlloc(r, k, size, req);
    && Linked(m, m', r, k, a) && p == a.UserPtr()
    && (r.allocs == [] || k < |r.allocs| ==> Cleared(m', p, req))
  }

  lemma SqueezedIntro(m: Mem, m': Mem, r: Region, k: nat, size: int, req: int, p: int)
    requires r.Valid() && k <= |r.allocs|
    requires Linked(m, m', r, k, NewAlloc(r, k, size, req)) && p == NewAlloc(r, k, size, req).UserPtr()
    requires r.allocs == [] || k < |r.allocs| ==> Cleared(m', p, req)
    ensures p != 0 && Squeezed(m, m', r, k, size, req, p)
  {
    hide Linked;
    AlignBounds(NewAlloc(r, k, size, req));
  }

  /** Three or two right bytes are only possible with the lowest one right. */
  lemma LowByte(x: int)
    ensures x % 0x100_0000 == MAGIC % 0x100_0000 || x % 0x1_0000 == MAGIC % 0x1_0000 ==> x % 0x100 == MAGIC % 0x100
  {
    LowRest(x / 0x100_0000 * 0x1_0000, x % 0x100_0000);
    LowRest(x / 0x1_0000 * 0x100, x % 0x1_0000);
  }

  lemma LowRest(k: int, r: int)
    ensures (0x100 * k + r) % 0x100 == r % 0x100
  {
  }

  lemma FirstAllocIs(r: Region)
    requires r.allocs != []
    ensures FirstAlloc(r) == r.allocs[0].addr
  {
  }

  /** What reading the major's header tells. */
  lemma MajorFacts(m: Mem, r: Region)
    requires MajorReady(m, r)
    ensures r.Valid() && InMem(m, r.addr, HEADER)
    ensures var first := MajorAt(m, r.addr).first;
            if r.allocs == [] then first == 0
            else first != 0 && first == r.allocs[0].addr && r.Gap(0) == first - r.addr - HEADER
  {
  }

  /** What reading the header of minor `k` tells about the gap behind it. */
  lemma MinorFacts(m: Mem, r: Region, k: nat)
    requires MajorReady(m, r) && k < |r.allocs| && AllocRep(m, r, k)
    ensures InMem(m, r.addr, HEADER) && InMem(m, r.allocs[k].addr, HEADER) && r.allocs[k].addr != 0
    ensures var min, h := r.allocs[k].addr, MinorAt(m, r.allocs[k].addr);
            if k + 1 == |r.allocs| then
              h.next == 0 && r.Gap(k + 1) == r.addr + MajorAt(m, r.addr).size - min - HEADER - h.size
            else
              h.next != 0 && h.next == r.allocs[k + 1].addr && r.Gap(k + 1) == h.next - min - HEADER - h.size
  {
    hide Word;
  }

  lemma BetFacts(l: Layout, bet: int, need: int)
    requires BetServes(l, bet, need)
    ensures bet != 0 && IndexOf(l, bet) < |l| && l[IndexOf(l, bet)].Free() > need && Fits(l[IndexOf(l, bet)], need)
  {
  }

  /** What the best bet serves leaves it with that much less. */
  lemma BetShrinks(l: Layout, bet: int, size: nat, req: nat, run: int)
    requires BetServes(l, bet, size + HEADER) && req + ALIGNMENT + ALIGN_INFO <= size
    ensures var l', b := Malloced(l, StartOf(l, bet, size + HEADER), size, req, run), IndexOf(l, bet);
            && |l'| == |l| && IndexOf(l', bet) == b
            && l'[b].Free() == l[b].Free() - size - HEADER && forall i :: 0 <= i < |l| && i != b ==> l'[i] == l[i]
  {
    hide FitFrom, IndexOf, Region.Gap;
    var b := IndexOf(l, bet);
    var k := Fit(l[b], size + HEADER);
    PlaceIndices(l, b, k, size, req);
    SizesInsert(l[b].allocs, k, NewAlloc(l[b], k, size, req));
  }

  lemma FitStep(r: Region, need: int, k: nat)
    requires k <= |r.allocs| && FitFrom(r, need, 0) == FitFrom(r, need, k)
    ensures r.Gap(k) >= need ==> Fit(r, need) == k && Fits(r, need)
    ensures r.Gap(k) < need ==> FitFrom(r, need, 0) == FitFrom(r, need, k + 1)
    ensures r.Gap(k) < need && k == |r.allocs| ==> !Fits(r, need)
  {
  }

  lemma ReadyMajor(m: Mem, root: int, l: Layout, j: nat)
    requires Rep(m, root, l) && ValidLayout(l, |m|) && |m| <= WORD_LIMIT && j < |l|
    ensures MajorReady(m, l[j])
    ensures forall k :: 0 <= k < |l[j].allocs| ==> AllocRep(m, l[j], k)
  {
    hide Word, MajorAt, AllocRep;
    ReadMajor(m, root, l, j);
  }

  lemma PlaceIndices(l: Layout, j: nat, k: nat, size: int, req: int)
    requires j < |l| && k <= |l[j].allocs|
    ensures |Place(l, j, k, size, req)| == |l|
    ensures forall addr :: IndexOf(Place(l, j, k, size, req), addr) == IndexOf(l, addr)
  {
    forall addr {
      SameAddresses(l, Place(l, j, k, size, req), addr);
    }
  }

  lemma PlacedMajor(m: Mem, m': Mem, root: int, l: Layout, j: nat, k: nat, size: int, req: int, p: int)
    requires Rep(m, root, l) && ValidLayout(l, |m|) && j < |l| && k <= |l[j].allocs|
    requires l[j].Gap(k) >= size + HEADER && 0 <= req && req + ALIGNMENT + ALIGN_INFO <= size
    requires Squeezed(m, m', l[j], k, size, req, p) && p != 0
    ensures Rep(m', root, Place(l, j, k, size, req)) && ValidLayout(Place(l, j, k, size, req), |m'|)
    ensures InUse(Place(l, j, k, size, req)) == InUse(l) + size
    ensures Allocated(Place(l, j, k, size, req)) == Allocated(l)
    ensures Handed(l, m, m', j, k, size, req, p)
    ensures forall addr :: IndexOf(Place(l, j, k, size, req), addr) == IndexOf(l, addr)
    ensures |Place(l, j, k, size, req)| == |l| && |m'| == |m|
  {
    hide Rep, Place, Linked, Region.Insert, Region.Valid, Kept, Confined, OnlyIn, Apart, Region.Gap, NewAlloc, IndexOf;
    PlaceIndices(l, j, k, size, req);
    var a := NewAlloc(l[j], k, size, req);
    InsertValid(l[j], k, size, req);
    PlaceValid(l, |m|, j, k, size, req);
    PlaceRep(m, m', root, l, j, k, size, req);
    OnlyInConfined(m, m', l, j);
    forall i, b | 0 <= i < |l| && 0 <= b < |l[i].allocs| ensures Kept(m, m', l[i].allocs[b]) {
      PlaceKeeps(m, m', l, j, k, a, i, b);
    }
  }

  /** Everything an obtained major keeps and establishes. */
  lemma AppendedMajor(m: Mem, m': Mem, root: int, l: Layout, run: int, size: int)
    requires Rep(m, root, l) && ValidLayout(l, |m|) && 0 <= size && FreshRun(l, |m|, run, PagesFor(size))
    requires Appended(m, m', l, NewRegion(run, size))
    ensures var l' := l + [NewRegion(run, size)];
            && |m'| == |m| && ValidLayout(l', |m|) && Rep(m', if l == [] then run else root, l')
            && InUse(l') == InUse(l) && Allocated(l') == Allocated(l) + NewRegion(run, size).Bytes()
            && KeepsUsers(m, m', l) && Confined(m, m', l')
            && l'[|l|].Gap(0) >= size + HEADER
  {
    hide Rep, Word, MajorAt, MajorHeader, InUse, Allocated, KeepsUsers, Region.Valid, PagesFor;
    var r := NewRegion(run, size);
    AppendValid(l, |m|, run, size);
    AppendRep(m, m', root, l, r);
    var last := if l == [] then 0 else l[|l| - 1].addr;
    HeadersKeep(m, m', l, last, run);
    AppendConfined(m, m', l, r);
  }

  lemma EmptyRoot(m: Mem, root: int)
    requires Rep(m, root, [])
    ensures root == 0 && Rep(m, 0, [])
  {
  }

  lemma FreshAppended(m: Mem, m': Mem, run: int, size: int)
    requires |m'| == |m| && 0 <= size && 0 < run && run + HEADER <= |m|
    requires MajorAt(m', run) == Major(0, 0, PagesFor(size), PagesFor(size) * PAGE, HEADER, 0)
    requires forall x :: 0 <= x < |m| && !InHeader(run, x) ==> m'[x] == m[x]
    ensures Appended(m, m', [], NewRegion(run, size))
  {
    hide Word, MajorAt, PagesFor;
    assert [] + [NewRegion(run, size)] == [NewRegion(run, size)];
  }

  /** Storing the word that is already there changes nothing. */
  lemma StoreSame(m: Mem, a: int)
    requires InMem(m, a, 4)
    ensures PutWord(m, a, Word(m, a)) == m
  {
    var m' := PutWord(m, a, Word(m, a));
    WordSame(m, m', a, a);
    forall i | a <= i < a + 4 ensures m'[i] == m[i] {
      assert m'[i] == m'[a..a + 4][i - a] && m[i] == m[a..a + 4][i - a];
    }
  }

  lemma LastMajor(m: Mem, root: int, l: Layout, run: int, size: int)
    requires Rep(m, root, l) && ValidLayout(l, |m|) && l != [] && 0 <= size
    requires run == 0 || FreshRun(l, |m|, run, PagesFor(size))
    ensures var last := l[|l| - 1].addr;
            && 0 < last && InMem(m, last, HEADER) && MajorAt(m, last).next == 0
            && (run != 0 ==> last + HEADER <= run || run + HEADER <= last)
  {
    hide Word, MajorAt;
    ReadMajor(m, root, l, |l| - 1);
  }

  lemma LinkedAppended(m: Mem, m': Mem, l: Layout, run: int, size: int)
    requires |m'| == |m| && 0 <= size && 0 < run && run + HEADER <= |m| && l != []
    requires var last := l[|l| - 1].addr;
             && InMem(m, last, HEADER) && OnlyHeaders(m, m', last, run)
             && MajorAt(m', run) == Major(last, 0, PagesFor(size), PagesFor(size) * PAGE, HEADER, 0)
             && MajorAt(m', last) == MajorAt(m, last).(next := run)
    ensures Appended(m, m', l, NewRegion(run, size))
  {
    hide Word, MajorAt, PagesFor, OnlyHeaders;
    var l' := l + [NewRegion(run, size)];
    assert l'[|l|] == NewRegion(run, size) && l'[|l| - 1] == l[|l| - 1];
  }

  lemma {:induction false} IndexAppend(l: Layout, r: Region, addr: int)
    requires IndexOf(l, addr) < |l|
    ensures IndexOf(l + [r], addr) == IndexOf(l, addr)
  {
    assert (l + [r])[0] == l[0];
    if l[0].addr != addr {
      assert (l + [r])[1..] == l[1..] + [r];
      IndexAppend(l[1..], r, addr);
    }
  }

  lemma AppendConfined(m: Mem, m': Mem, l: Layout, r: Region)
    requires ValidLayout(l + [r], |m|) && OnlyHeaders(m, m', if l == [] then 0 else l[|l| - 1].addr, r.addr)
    ensures Confined(m, m', l + [r])
  {
    var l' := l + [r];
    assert l'[|l|] == r && (l != [] ==> l'[|l| - 1] == l[|l| - 1]);
    assert r.Valid() && (l != [] ==> l'[|l| - 1].Valid());
    forall x | 0 <= x < |m| && !InRegions(l', x) ensures m'[x] == m[x] {
      assert !(l'[|l|].addr <= x < l'[|l|].End());
      assert l != [] ==> !(l'[|l| - 1].addr <= x < l'[|l| - 1].End());
    }
  }

  class Heap {
    var mem: Mem
    var memRoot: int         // l_memRoot
    var bestBet: int         // l_bestBet
    var bytesAllocated: int  // l_allocated
    var bytesInUse: int      // l_inuse
    var lock: bool
    var warnings: nat        // l_warningCount
    var errors: nat          // l_errorCount
    var overruns: nat        // l_possibleOverruns
    var faulted: bool        // a page fault stopped the kernel
    ghost var layout: Layout // what the headers in `mem` describe

    /** The allocator as the kernel starts with it. */
    constructor (m: Mem)
      requires |m| <= WORD_LIMIT
      ensures Valid() && mem == m && layout == [] && bytesInUse == 0 && bytesAllocated == 0 && !faulted
    {
      mem := m;
      memRoot, bestBet, bytesAllocated, bytesInUse := 0, 0, 0, 0;
      lock, faulted := false, false;
      warnings, errors, overruns := 0, 0, 0;
      layout := [];
    }

    /** Holds whenever no header is half written, also in the middle of an operation. */
    ghost predicate Inv()
      reads this
    {
      && |mem| <= WORD_LIMIT && ValidLayout(layout, |mem|) && Rep(mem, memRoot, layout)
      && bytesInUse == InUse(layout) && bytesAllocated == Allocated(layout)
      && (bestBet == 0 || IndexOf(layout, bestBet) < |layout|)
    }

    /** Holds between operations. */
    ghost predicate Valid()
      reads this
    {
      Inv() && NoneEmpty(layout) && !lock
    }

    /** The ALIGN macro. */
    method Align(p: int) returns (q: int)
      requires 0 <= p && p + ALIGN_INFO + ALIGNMENT <= |mem|
      modifies this`mem
      ensures q == AlignUp(p)
      ensures mem == old(mem)[q - ALIGN_INFO := q - p]
    {
      q := p + ALIGN_INFO;
      var diff := q % ALIGNMENT;
      if diff != 0 {
        diff := ALIGNMENT - diff;
        q := q + diff;
      }
      mem := mem[q - ALIGN_INFO := diff + ALIGN_INFO];
    }

    method Memset(p: int, n: nat)
      requires InMem(mem, p, n)
      modifies this`mem
      ensures |mem| == |old(mem)|
      ensures forall x :: 0 <= x < |mem| ==> mem[x] == if p <= x < p + n then 0 else old(mem)[x]
    {
      for i := 0 to n
        invariant |mem| == |old(mem)|
        invariant forall x :: 0 <= x < |mem| ==> mem[x] == if p <= x < p + i then 0 else old(mem)[x]
      {
        mem := mem[p + i := 0];
      }
    }

    /** The four fields every case fills in. */
    method Stamp(min: int, maj: int, size: nat, req: nat)
      requires InMem(mem, min, HEADER) && 0 <= maj < WORD_LIMIT && size < WORD_LIMIT && req < WORD_LIMIT
      modifies this`mem
      ensures |mem| == |old(mem)|
      ensures MinorAt(mem, min) == old(MinorAt(mem, min)).(block := maj, magic := MAGIC, size := size, req := req)
      ensures forall x :: 0 <= x < |mem| && !InHeader(min, x) ==> mem[x] == old(mem)[x]
      ensures forall b :: InMem(mem, b, 4) && (b + 4 <= min || min + HEADER <= b) ==> Word(mem, b) == old(Word(mem, b))
    {
      hide Word, PutWord;
      mem := PutWord(mem, min + MIN_MAGIC, MAGIC);
      mem := PutWord(mem, min + MIN_BLOCK, maj);
      mem := PutWord(mem, min + MIN_SIZE, size);
      mem := PutWord(mem, min + MIN_REQ, req);
    }

    /** `maj->usage += n`. */
    method Charge(maj: int, n: nat)
      requires InMem(mem, maj, HEADER) && MajorAt(mem, maj).usage + n < WORD_LIMIT
      modifies this`mem
      ensures |mem| == |old(mem)|
      ensures MajorAt(mem, maj) == var h := old(MajorAt(mem, maj)); h.(usage := h.usage + n)
      ensures forall x :: 0 <= x < |mem| && !InHeader(maj, x) ==> mem[x] == old(mem)[x]
      ensures forall b :: InMem(mem, b, 4) && (b + 4 <= maj || maj + HEADER <= b) ==> Word(mem, b) == old(Word(mem, b))
    {
      hide Word, PutWord;
      mem := PutWord(mem, maj + MAJ_USAGE, Word(mem, maj + MAJ_USAGE) + n);
    }

    /** CASE 2: a brand new block. */
    method HookEmpty(maj: int, size: nat, req: nat) returns (min: int)
      requires InMem(mem, maj, HEADER + HEADER) && |mem| <= WORD_LIMIT && size < WORD_LIMIT && req < WORD_LIMIT
      requires MajorAt(mem, maj).usage + size + HEADER < WORD_LIMIT
      modifies this`mem
      ensures |mem| == |old(mem)| && min == maj + HEADER
      ensures MinorAt(mem, min) == Minor(0, 0, maj, MAGIC, size, req)
      ensures MajorAt(mem, maj) == var h := old(MajorAt(mem, maj)); h.(usage := h.usage + size + HEADER, first := min)
      ensures forall x :: 0 <= x < |mem| && !InHeader(maj, x) && !InHeader(min, x) ==> mem[x] == old(mem)[x]
    {
      hide Word, PutWord;
      min := maj + HEADER;
      mem := PutWord(mem, maj + MAJ_FIRST, min);
      Stamp(min, maj, size, req);
      mem := PutWord(mem, min + PREV, 0);
      mem := PutWord(mem, min + NEXT, 0);
      Charge(maj, size + HEADER);
    }

    method LinkFront(maj: int, first: int) returns (min: int)
      requires InMem(mem, maj, HEADER + HEADER) && |mem| <= WORD_LIMIT
      requires first == MajorAt(mem, maj).first && maj + HEADER + HEADER <= first && InMem(mem, first, HEADER)
      modifies this`mem
      ensures |mem| == |old(mem)| && min == maj + HEADER
      ensures MinorAt(mem, min).prev == 0 && MinorAt(mem, min).next == first
      ensures MinorAt(mem, first) == old(MinorAt(mem, first)).(prev := min)
      ensures MajorAt(mem, maj) == old(MajorAt(mem, maj)).(first := min)
      ensures forall x :: 0 <= x < |mem| && !InHeader(maj, x) && !InHeader(min, x) && !InHeader(first, x) ==>
                mem[x] == old(mem)[x]
    {
      hide Word, PutWord;
      min := maj + HEADER;
      mem := PutWord(mem, first + PREV, min);
      mem := PutWord(mem, min + NEXT, first);
      mem := PutWord(mem, maj + MAJ_FIRST, min);
      mem := PutWord(mem, min + PREV, 0);
    }

    /** CASE 3: in use, with enough space at the start. */
    method HookFront(maj: int, first: int, size: nat, req: nat) returns (min: int)
      requires InMem(mem, maj, HEADER + HEADER) && |mem| <= WORD_LIMIT && size < WORD_LIMIT && req < WORD_LIMIT
      requires MajorAt(mem, maj).usage + size + HEADER < WORD_LIMIT
      requires first == MajorAt(mem, maj).first && maj + HEADER + HEADER <= first && InMem(mem, first, HEADER)
      modifies this`mem
      ensures |mem| == |old(mem)| && min == maj + HEADER
      ensures MinorAt(mem, min) == Minor(0, first, maj, MAGIC, size, req)
      ensures MinorAt(mem, first) == old(MinorAt(mem, first)).(prev := min)
      ensures MajorAt(mem, maj) == var h := old(MajorAt(mem, maj)); h.(usage := h.usage + size + HEADER, first := min)
      ensures forall x :: 0 <= x < |mem| && !InHeader(maj, x) && !InHeader(min, x) && !InHeader(first, x) ==>
                mem[x] == old(mem)[x]
    {
      hide Word, PutWord;
      min := LinkFront(maj, first);
      Stamp(min, maj, size, req);
      Charge(maj, size + HEADER);
    }

    /** CASE 4.1: room between the last minor and the end of the block. */
    method HookTail(maj: int, last: int, size: nat, req: nat) returns (min: int)
      requires InMem(mem, maj, HEADER) && |mem| <= WORD_LIMIT && size < WORD_LIMIT && req < WORD_LIMIT
      requires MajorAt(mem, maj).usage + size + HEADER < WORD_LIMIT
      requires maj + HEADER <= last && InMem(mem, last, HEADER)
      requires last + HEADER + MinorAt(mem, last).size + HEADER <= |mem|
      modifies this`mem
      ensures |mem| == |old(mem)| && min == last + HEADER + old(MinorAt(mem, last)).size
      ensures MinorAt(mem, min) == Minor(last, 0, maj, MAGIC, size, req)
      ensures MinorAt(mem, last) == old(MinorAt(mem, last)).(next := min)
      ensures MajorAt(mem, maj) == var h := old(MajorAt(mem, maj)); h.(usage := h.usage + size + HEADER)
      ensures forall x :: 0 <= x < |mem| && !InHeader(maj, x) && !InHeader(min, x) && !InHeader(last, x) ==>
                mem[x] == old(mem)[x]
    {
      hide Word, PutWord;
      min := last + HEADER + Word(mem, last + MIN_SIZE);
      mem := PutWord(mem, last + NEXT, min);
      mem := PutWord(mem, min + PREV, last);
      mem := PutWord(mem, min + NEXT, 0);
      Stamp(min, maj, size, req);
      Charge(maj, size + HEADER);
    }

    method LinkBetween(left: int, min: int, next: int)
      requires |mem| <= WORD_LIMIT && InMem(mem, left, HEADER) && left + HEADER <= min
      requires min + HEADER <= next && InMem(mem, next, HEADER) && next == MinorAt(mem, left).next
      modifies this`mem
      ensures |mem| == |old(mem)|
      ensures MinorAt(mem, min).prev == left && MinorAt(mem, min).next == next
      ensures MinorAt(mem, next) == old(MinorAt(mem, next)).(prev := min)
      ensures MinorAt(mem, left) == old(MinorAt(mem, left)).(next := min)
      ensures forall x :: 0 <= x < |mem| && !InHeader(left, x) && !InHeader(min, x) && !InHeader(next, x) ==>
                mem[x] == old(mem)[x]
      ensures forall b :: InMem(mem, b, 4) && b + 4 <= left ==> Word(mem, b) == old(Word(mem, b))
    {
      hide Word, PutWord;
      mem := PutWord(mem, min + NEXT, Word(mem, left + NEXT));
      mem := PutWord(mem, min + PREV, left);
      mem := PutWord(mem, Word(mem, left + NEXT) + PREV, min);
      mem := PutWord(mem, left + NEXT, min);
    }

    /** CASE 4.2: room between two minors. */
    method HookBetween(maj: int, left: int, size: nat, req: nat) returns (min: int)
      requires InMem(mem, maj, HEADER) && |mem| <= WORD_LIMIT && size < WORD_LIMIT && req < WORD_LIMIT
      requires MajorAt(mem, maj).usage + size + HEADER < WORD_LIMIT
      requires maj + HEADER <= left && InMem(mem, left, HEADER)
      requires var h := MinorAt(mem, left); left + HEADER + h.size + HEADER <= h.next && InMem(mem, h.next, HEADER)
      modifies this`mem
      ensures |mem| == |old(mem)| && min == left + HEADER + old(MinorAt(mem, left)).size
      ensures var next := old(MinorAt(mem, left)).next;
              && MinorAt(mem, min) == Minor(left, next, maj, MAGIC, size, req)
              && MinorAt(mem, next) == old(MinorAt(mem, MinorAt(mem, left).next)).(prev := min)
              && forall x | 0 <= x < |mem| :: InHeader(maj, x) || InHeader(min, x) || InHeader(left, x) ||
                                              InHeader(next, x) || mem[x] == old(mem)[x]
      ensures MinorAt(mem, left) == old(MinorAt(mem, left)).(next := min)
      ensures MajorAt(mem, maj) == var h := old(MajorAt(mem, maj)); h.(usage := h.usage + size + HEADER)
    {
      hide Word, PutWord;
      min := left + HEADER + Word(mem, left + MIN_SIZE);
      LinkBetween(left, min, Word(mem, left + NEXT));
      Stamp(min, maj, size, req);
      Charge(maj, size + HEADER);
    }

    /** ALIGN and memset: the part of the new block behind its header. */
    method Finish(min: int, size: nat, req: nat, clear: bool) returns (p: int)
      requires 0 <= min && min + HEADER + size <= |mem| && req + ALIGNMENT + ALIGN_INFO <= size
      modifies this`mem
      ensures |mem| == |old(mem)| && p == Alloc(min, size, req).UserPtr()
      ensures HiddenByte(mem, Alloc(min, size, req))
      ensures forall x :: 0 <= x < |mem| && !(min + HEADER <= x < min + HEADER + size) ==> mem[x] == old(mem)[x]
      ensures clear ==> Cleared(mem, p, req)
      ensures !clear ==> forall x :: 0 <= x < |mem| && x != p - ALIGN_INFO ==> mem[x] == old(mem)[x]
    {
      AlignBounds(Alloc(min, size, req));
      p := Align(min + HEADER);
      if clear {
        Memset(p, req);
      }
    }

    method PlaceEmpty(maj: int, size: nat, req: nat, ghost r: Region) returns (p: int)
      requires MajorReady(mem, r) && maj == r.addr && r.allocs == []
      requires r.Gap(0) >= size + HEADER && req + ALIGNMENT + ALIGN_INFO <= size
      modifies this`mem
      ensures Linked(old(mem), mem, r, 0, NewAlloc(r, 0, size, req))
      ensures p == NewAlloc(r, 0, size, req).UserPtr()
      ensures Cleared(mem, p, req)
    {
      hide Word, PutWord, MajorAt, MinorAt, Hooked, HiddenByte, Linked;
      ghost var a := NewAlloc(r, 0, size, req);
      var min := HookEmpty(maj, size, req);
      ghost var m1 := mem;
      p := Finish(min, size, req, true);
      HookedIntro(old(mem), m1, r, 0, a);
      InsertValid(r, 0, size, req);
      LinkedAfterBody(old(mem), m1, mem, r, 0, a);
    }

    method PlaceFront(maj: int, first: int, size: nat, req: nat, ghost r: Region) returns (p: int)
      requires MajorReady(mem, r) && maj == r.addr && r.allocs != [] && AllocRep(mem, r, 0) && first == FirstAlloc(r)
      requires r.Gap(0) >= size + HEADER && req + ALIGNMENT + ALIGN_INFO <= size
      modifies this`mem
      ensures Linked(old(mem), mem, r, 0, NewAlloc(r, 0, size, req))
      ensures p == NewAlloc(r, 0, size, req).UserPtr()
      ensures Cleared(mem, p, req)
    {
      hide Word, PutWord, MajorAt, MinorAt, Hooked, HiddenByte, Linked;
      ghost var a := NewAlloc(r, 0, size, req);
      InsertValid(r, 0, size, req);
      NoGapBeyondFree(r, 0);
      var min := HookFront(maj, first, size, req);
      ghost var m1 := mem;
      p := Finish(min, size, req, true);
      HookedIntro(old(mem), m1, r, 0, a);
      LinkedAfterBody(old(mem), m1, mem, r, 0, a);
    }

    method PlaceTail(maj: int, last: int, size: nat, req: nat, ghost r: Region) returns (p: int)
      requires MajorReady(mem, r) && maj == r.addr && r.allocs != [] && AllocRep(mem, r, |r.allocs| - 1)
      requires last == r.allocs[|r.allocs| - 1].addr
      requires r.Gap(|r.allocs|) >= size + HEADER && req + ALIGNMENT + ALIGN_INFO <= size
      modifies this`mem
      ensures Linked(old(mem), mem, r, |r.allocs|, NewAlloc(r, |r.allocs|, size, req))
      ensures p == NewAlloc(r, |r.allocs|, size, req).UserPtr()
      ensures var a := NewAlloc(r, |r.allocs|, size, req);
              && |mem| == |old(mem)| && InMem(mem, p, req) && a.addr + HEADER < p && p + req <= a.End() <= |mem|
              && forall x :: a.addr + HEADER <= x < a.End() && x != p - ALIGN_INFO ==> mem[x] == old(mem)[x]
    {
      hide Word, PutWord, MajorAt, MinorAt, Hooked, HiddenByte, Linked;
      ghost var k := |r.allocs|;
      ghost var a := NewAlloc(r, k, size, req);
      InsertValid(r, k, size, req);
      NoGapBeyondFree(r, k);
      var min := HookTail(maj, last, size, req);
      ghost var m1 := mem;
      p := Finish(min, size, req, false);
      HookedIntro(old(mem), m1, r, k, a);
      LinkedAfterBody(old(mem), m1, mem, r, k, a);
      AlignBounds(a);
    }

    method PlaceBetween(maj: int, left: int, size: nat, req: nat, ghost r: Region, ghost k: nat) returns (p: int)
      requires MajorReady(mem, r) && maj == r.addr && 0 < k < |r.allocs| && AllocRep(mem, r, k - 1) && AllocRep(mem, r, k)
      requires left == r.allocs[k - 1].addr
      requires r.Gap(k) >= size + HEADER && req + ALIGNMENT + ALIGN_INFO <= size
      modifies this`mem
      ensures Linked(old(mem), mem, r, k, NewAlloc(r, k, size, req))
      ensures p == NewAlloc(r, k, size, req).UserPtr()
      ensures Cleared(mem, p, req)
    {
      hide Word, PutWord, MajorAt, MinorAt, Hooked, HiddenByte, Linked;
      ghost var a := NewAlloc(r, k, size, req);
      InsertValid(r, k, size, req);
      NoGapBeyondFree(r, k);
      var min := HookBetween(maj, left, size, req);
      ghost var m1 := mem;
      p := Finish(min, size, req, true);
      HookedIntro(old(mem), m1, r, k, a);
      LinkedAfterBody(old(mem), m1, mem, r, k, a);
    }

    /** CASE 2, 3 and 4: find room inside one major and take it, or leave everything alone. */
    method Squeeze(maj: int, size: nat, req: nat, ghost r: Region) returns (p: int)
      requires MajorReady(mem, r) && maj == r.addr && req + ALIGNMENT + ALIGN_INFO <= size
      requires forall k :: 0 <= k < |r.allocs| ==> AllocRep(mem, r, k)
      requires r.allocs == [] ==> r.Gap(0) >= size + HEADER
      modifies this`mem
      ensures p == 0 <==> !Fits(r, size + HEADER)
      ensures p == 0 ==> mem == old(mem)
      ensures p != 0 ==> Squeezed(old(mem), mem, r, Fit(r, size + HEADER), size, req, p)
    {
      hide *;
      var need := size + HEADER;
      MajorFacts(mem, r);
      var first := MajorAt(mem, maj).first;
      FitStep(r, need, 0);
      if first == 0 {
        p := PlaceEmpty(maj, size, req, r);
        SqueezedIntro(old(mem), mem, r, 0, size, req, p);
        return;
      }
      if first - maj - HEADER >= need {
        FirstAllocIs(r);
        p := PlaceFront(maj, first, size, req, r);
        SqueezedIntro(old(mem), mem, r, 0, size, req, p);
        return;
      }
      var min := first;
      ghost var k := 0;
      while min != 0
        invariant mem == old(mem) && k <= |r.allocs| && min == if k < |r.allocs| then r.allocs[k].addr else 0
        invariant k < |r.allocs| ==> min != 0 && FitFrom(r, need, 0) == FitFrom(r, need, k + 1)
        invariant k == |r.allocs| ==> !Fits(r, need)
        decreases |r.allocs| - k
      {
        assert AllocRep(mem, r, k);
        MinorFacts(mem, r, k);
        FitStep(r, need, k + 1);
        var h := MinorAt(mem, min);
        if h.next == 0 {
          if maj + MajorAt(mem, maj).size - min - HEADER - h.size >= need {
            p := PlaceTail(maj, min, size, req, r);
            SqueezedIntro(old(mem), mem, r, k + 1, size, req, p);
            return;
          }
        } else if h.next - min - HEADER - h.size >= need {
          assert AllocRep(mem, r, k + 1);
          p := PlaceBetween(maj, min, size, req, r, k + 1);
          SqueezedIntro(old(mem), mem, r, k + 1, size, req, p);
          return;
        }
        k := k + 1;
        min := h.next;
      }
      p := 0;
    }

    /** Try one major: take room in it, or change nothing because none of its gaps is big enough. */
    method TryMajor(maj: int, size: nat, req: nat, ghost j: nat) returns (p: int)
      requires Inv() && j < |layout| && maj == layout[j].addr && req + ALIGNMENT + ALIGN_INFO <= size
      requires layout[j].allocs == [] ==> layout[j].Gap(0) >= size + HEADER
      modifies this`mem, this`layout, this`bytesInUse
      ensures Inv()
      ensures p == 0 <==> !Fits(old(layout)[j], size + HEADER)
      ensures p == 0 ==> mem == old(mem) && layout == old(layout)
      ensures p != 0 ==>
                var k := Fit(old(layout)[j], size + HEADER);
                && layout == Place(old(layout), j, k, size, req)
                && Handed(old(layout), old(mem), mem, j, k, size, req, p)
    {
      hide Rep, ValidLayout, AllocRep, MajorReady, Squeezed, Place, Handed, InUse, Allocated, Word, MajorAt, IndexOf;
      ReadyMajor(mem, memRoot, layout, j);
      p := Squeeze(maj, size, req, layout[j]);
      if p != 0 {
        ghost var k := Fit(layout[j], size + HEADER);
        PlacedMajor(old(mem), mem, memRoot, layout, j, k, size, req, p);
        layout := Place(layout, j, k, size, req);
        bytesInUse := bytesInUse + size;
      }
    }

    /** `allocate_new_page`; `run` is what the page supplier answers, 0 for no pages. */
    method AllocateNewPage(size: nat, run: int) returns (maj: int)
      requires |mem| <= WORD_LIMIT && (run == 0 || (0 < run && run + PagesFor(size) * PAGE <= |mem|))
      modifies this`mem, this`bytesAllocated, this`warnings
      ensures maj == run && |mem| == |old(mem)|
      ensures run == 0 ==> mem == old(mem) && bytesAllocated == old(bytesAllocated) && warnings == old(warnings) + 1
      ensures run != 0 ==>
                && bytesAllocated == old(bytesAllocated) + PagesFor(size) * PAGE && warnings == old(warnings)
                && MajorAt(mem, run) == Major(0, 0, PagesFor(size), PagesFor(size) * PAGE, HEADER, 0)
                && forall x :: 0 <= x < |mem| && !InHeader(run, x) ==> mem[x] == old(mem)[x]
    {
      hide Word, PutWord;
      var st := size + HEADER;
      st := st + HEADER;
      if st % PAGE == 0 {
        st := st / PAGE;
      } else {
        st := st / PAGE + 1;
      }
      if st < PAGE_COUNT {
        st := PAGE_COUNT;
      }
      maj := run;
      if maj == 0 {
        warnings := warnings + 1;
        return;
      }
      mem := PutWord(mem, maj + PREV, 0);
      mem := PutWord(mem, maj + NEXT, 0);
      mem := PutWord(mem, maj + MAJ_PAGES, st);
      mem := PutWord(mem, maj + MAJ_SIZE, st * PAGE);
      mem := PutWord(mem, maj + MAJ_USAGE, HEADER);
      mem := PutWord(mem, maj + MAJ_FIRST, 0);
      bytesAllocated := bytesAllocated + st * PAGE;
    }

    /** The first major of all. */
    method Initialise(size: nat, run: int)
      requires Inv() && layout == [] && (run == 0 || FreshRun(layout, |mem|, run, PagesFor(size)))
      modifies this`mem, this`layout, this`memRoot, this`bytesAllocated, this`warnings
      ensures Inv() && memRoot == run && warnings == old(warnings) + if run == 0 then 1 else 0
      ensures run == 0 ==> mem == old(mem) && layout == []
      ensures run != 0 ==> layout == [NewRegion(run, size)] && Confined(old(mem), mem, layout)
      ensures run != 0 ==> layout[0].Gap(0) >= size + HEADER
    {
      hide Word, PutWord, MajorAt, InUse, Allocated, PagesFor, Confined, IndexOf, ValidLayout, Rep;
      EmptyRoot(mem, memRoot);
      memRoot := AllocateNewPage(size, run);
      if memRoot != 0 {
        ghost var r := NewRegion(run, size);
        FreshAppended(old(mem), mem, run, size);
        AppendedMajor(old(mem), mem, old(memRoot), [], run, size);
        assert [] + [r] == [r];
        layout := [r];
      }
    }

    /** `maj->next = allocate_new_page(size)` and, if there is one, its back link. */
    method LinkNewPage(last: int, size: nat, run: int)
      requires |mem| <= WORD_LIMIT && (run == 0 || (0 < run && run + PagesFor(size) * PAGE <= |mem|))
      requires 0 < last && InMem(mem, last, HEADER) && MajorAt(mem, last).next == 0
      requires run == 0 || last + HEADER <= run || run + HEADER <= last
      modifies this`mem, this`bytesAllocated, this`warnings
      ensures |mem| == |old(mem)| && warnings == old(warnings) + if run == 0 then 1 else 0
      ensures run == 0 ==> mem == old(mem) && bytesAllocated == old(bytesAllocated)
      ensures run != 0 ==>
                && bytesAllocated == old(bytesAllocated) + PagesFor(size) * PAGE
                && MajorAt(mem, run) == Major(last, 0, PagesFor(size), PagesFor(size) * PAGE, HEADER, 0)
                && OnlyHeaders(old(mem), mem, last, run)
      ensures run != 0 ==> MajorAt(mem, last) == old(MajorAt(mem, last)).(next := run)
    {
      hide Word, PutWord, PagesFor;
      var next := AllocateNewPage(size, run);
      if next != 0 {
        HeaderFrame(old(mem), mem, last);
      }
      ghost var m1 := mem;
      mem := PutWord(mem, last + NEXT, next);
      if next == 0 {
        StoreSame(m1, last + NEXT);
        return;
      }
      mem := PutWord(mem, next + PREV, last);
    }

    method Extend(last: int, size: nat, run: int) returns (next: int)
      requires Inv() && layout != [] && last == layout[|layout| - 1].addr
      requires run == 0 || FreshRun(layout, |mem|, run, PagesFor(size))
      modifies this`mem, this`layout, this`bytesAllocated, this`warnings
      ensures Inv() && next == run && warnings == old(warnings) + if run == 0 then 1 else 0
      ensures run == 0 ==> mem == old(mem) && layout == old(layout)
      ensures run != 0 ==>
                && layout == old(layout) + [NewRegion(run, size)]
                && layout[|layout| - 1].Gap(0) >= size + HEADER
                && KeepsUsers(old(mem), mem, old(layout)) && Confined(old(mem), mem, layout)
    {
      hide Word, PutWord, MajorAt, Rep, InUse, Allocated, PagesFor, KeepsUsers, Confined, IndexOf, OnlyHeaders, Appended;
      LastMajor(mem, memRoot, layout, run, size);
      LinkNewPage(last, size, run);
      next := run;
      if run != 0 {
        LinkedAppended(old(mem), mem, layout, run, size);
        AppendedMajor(old(mem), mem, memRoot, layout, run, size);
        if bestBet != 0 {
          IndexAppend(layout, NewRegion(run, size), bestBet);
        }
        layout := layout + [NewRegion(run, size)];
      }
    }

    ghost function MallocStart(req: nat): (s: nat)
      reads this
      ensures s <= |layout|
    {
      StartOf(layout, bestBet, req + ALIGNMENT + ALIGN_INFO + HEADER)
    }

    lemma InvFacts()
      requires Inv()
      ensures |mem| <= WORD_LIMIT && ValidLayout(layout, |mem|) && Rep(mem, memRoot, layout)
      ensures bestBet == 0 || IndexOf(layout, bestBet) < |layout|
    {
    }

    /** "This one has more memory than our best bet. Remember!" */
    method Remember(maj: int, diff: int, bestSize: int) returns (newSize: int)
      requires Inv() && IndexOf(layout, maj) < |layout|
      modifies this`bestBet
      ensures Inv() && newSize == if bestSize < diff then diff else bestSize
      ensures bestBet == if bestSize < diff then maj else old(bestBet)
    {
      hide Rep, ValidLayout, InUse, Allocated, IndexOf;
      newSize := bestSize;
      if bestSize < diff {
        bestBet := maj;
        newSize := diff;
      }
    }

    /** Where the loop of malloc starts: at the best bet if it has memory enough, or else at the root. */
    method Begin(need: int) returns (maj: int, bestSize: int, startedBet: bool, ghost j: nat)
      requires Inv() && layout != []
      ensures j < |layout| && maj == layout[j].addr && maj != 0
      ensures Scanning(layout, need, StartOf(layout, bestBet, need), startedBet, j)
      ensures Tracking(layout, need, StartOf(layout, bestBet, need), startedBet, j, 0, bestBet, bestBet, bestSize)
    {
      hide *;
      InvFacts();
      StartIs(layout, bestBet, need);
      BetSizeIs(layout, bestBet);
      j := 0;
      MajorInfo(mem, memRoot, layout, 0, need);
      maj, bestSize, startedBet := memRoot, 0, false;
      if bestBet != 0 {
        MajorInfo(mem, memRoot, layout, IndexOf(layout, bestBet), need);
        var h := MajorAt(mem, bestBet);
        bestSize := h.size - h.usage;
        if bestSize > need {
          maj := bestBet;
          startedBet := true;
          j := StartOf(layout, bestBet, need);
        }
      }
      ScanBegins(layout, need, StartOf(layout, bestBet, need), startedBet, j);
      TrackBegins(layout, need, StartOf(layout, bestBet, need), startedBet, j, bestBet);
    }

    /** The loop of malloc over the majors, from the best bet or from the root. */
    method Search(size: nat, req: nat, run: int) returns (p: int)
      requires Inv() && layout != [] && req + ALIGNMENT + ALIGN_INFO <= size && EmptiesFit(layout, size + HEADER)
      requires SupplierReady(layout, |mem|, StartOf(layout, bestBet, size + HEADER), size, run)
      modifies this`mem, this`layout, this`bestBet, this`bytesAllocated, this`bytesInUse, this`warnings
      ensures Inv() && warnings == old(warnings) + if p == 0 then 1 else 0
      ensures MallocOutcome(old(layout), old(mem), layout, mem,
                            StartOf(old(layout), old(bestBet), size + HEADER), size, req, run, p)
      ensures BetAfter(old(layout), StartOf(old(layout), old(bestBet), size + HEADER), size, run, old(bestBet), bestBet)
    {
      hide *;
      var need := size + HEADER;
      ghost var n: nat := 0;
      ghost var start := StartOf(layout, bestBet, need);
      ghost var j: nat;
      ghost var extended := false;
      var maj, bestSize, startedBet;
      maj, bestSize, startedBet, j := Begin(need);
      while maj != 0
        invariant Inv() && j < |layout| && maj == layout[j].addr && maj != 0 && EmptiesFit(layout, need)
        invariant warnings == old(warnings)
        invariant !extended ==> mem == old(mem) && layout == old(layout) && Scanning(layout, need, start, startedBet, j)
        invariant extended ==> Grown(old(layout), old(mem), layout, mem, start, size, run) && j == |old(layout)|
        invariant start < |old(layout)|
        invariant !extended ==> Tracking(layout, need, start, startedBet, j, n, old(bestBet), bestBet, bestSize)
        invariant extended ==> Tracked(old(layout), start, size, run, old(bestBet), bestBet, bestSize)
        decreases !extended, startedBet, |layout| - j
      {
        InvFacts();
        MajorInfo(mem, memRoot, layout, j, need);
        var h := MajorAt(mem, maj);
        var diff := h.size - h.usage;
        ghost var b, f := bestBet, bestSize;
        bestSize := Remember(maj, diff, bestSize);
        if extended {
          GrownLast(old(layout), old(mem), layout, mem, start, size, run);
          FreshFits(layout, j, need);
          TrackNew(old(layout), start, size, run, old(bestBet), b, f);
        } else {
          ScanStep(layout, need, start, startedBet, j);
          TrackStep(layout, |mem|, size, run, start, startedBet, j, n, old(bestBet), b, f, bestBet, bestSize);
          n := Next(layout, n);
        }
        // CASE 1
        if diff < need {
          if h.next != 0 {
            maj := h.next;
            j := j + 1;
            continue;
          }
          if startedBet {
            maj := memRoot;
            startedBet := false;
            j := 0;
            continue;
          }
          SupplierAsked(layout, |mem|, start, size, run);
          var next := Extend(maj, size, run);
          if next == 0 {
            break;
          }
          maj := next;
          j := |old(layout)|;
          extended := true;
          GrownIntro(old(layout), old(mem), layout, mem, start, size, run);
          GrownLast(old(layout), old(mem), layout, mem, start, size, run);
          FreshFits(layout, j, need);
        }
        // CASE 2, 3, 4
        ghost var l1, m1 := layout, mem;
        EmptyMajor(layout, need, j);
        p := TryMajor(maj, size, req, j);
        if p != 0 {
          if extended {
            OutcomeNew(old(layout), old(mem), l1, m1, mem, start, size, req, run, p);
          } else {
            OutcomeExisting(l1, m1, mem, start, size, req, run, p);
          }
          return;
        }
        // CASE 5
        if h.next == 0 {
          if startedBet {
            maj := memRoot;
            startedBet := false;
            j := 0;
            continue;
          }
          SupplierAsked(layout, |mem|, start, size, run);
          var next := Extend(maj, size, run);
          if next == 0 {
            break;
          }
          maj := next;
          j := |old(layout)|;
          extended := true;
          GrownIntro(old(layout), old(mem), layout, mem, start, size, run);
        } else {
          maj := h.next;
          j := j + 1;
        }
      }
      p := 0;
      OutcomeNone(layout, mem, start, size, req, run);
    }

    /** `new_malloc`. `run` is what the page supplier answers if asked; it is asked at most once. */
    method Malloc(req: nat, run: int) returns (p: int)
      requires Valid() && RequestFits(Served(req))
      requires SupplierReady(layout, |mem|, MallocStart(Served(req)), Served(req) + ALIGNMENT + ALIGN_INFO, run)
      modifies this
      ensures Valid() && faulted == old(faulted) && errors == old(errors) && overruns == old(overruns)
      ensures warnings == old(warnings) + (if p == 0 then 1 else 0) + if Served(req) != req then 1 else 0
      ensures MallocOutcome(old(layout), old(mem), layout, mem, old(MallocStart(Served(req))),
                            Served(req) + ALIGNMENT + ALIGN_INFO, Served(req), run, p)
      ensures MallocBet(old(layout), old(MallocStart(Served(req))), Served(req) + ALIGNMENT + ALIGN_INFO, run,
                        old(bestBet), bestBet)
      decreases if Served(req) != req then 1 else 0
    {
      hide Rep, ValidLayout, InUse, Allocated, MallocOutcome, SupplierReady, NewRegion, Confined, NoneEmpty, EmptiesFit,
           Region.Gap, StartOf, IndexOf, MallocBet, BetAfter;
      var size := (req + ALIGNMENT + ALIGN_INFO) % WORD_LIMIT;
      lock := true;
      if size == 0 {
        warnings := warnings + 1;
        lock := false;
        p := Malloc(1, run);
        return;
      }
      RootFacts(mem, memRoot, layout);
      if memRoot == 0 {
        FirstRun(|mem|, size, run);
        Initialise(size, run);
        if memRoot == 0 {
          lock := false;
          p := 0;
          OutcomeNone([], mem, 0, size, req, run);
          FirstBet(|mem|, size, run, bestBet);
          return;
        }
        FirstReady(|mem|, size, run);
        ghost var m1 := mem;
        p := Search(size, req, run);
        OutcomeFirst(old(mem), m1, layout, mem, size, req, run, p);
        FirstBet(|m1|, size, run, bestBet);
      } else {
        NoneEmptyFit(layout, size + HEADER);
        p := Search(size, req, run);
        BetOf(old(layout), old(MallocStart(req)), size, run, old(bestBet), bestBet);
      }
      OutcomeNoneEmpty(old(layout), old(mem), layout, mem, old(MallocStart(req)), size, req, run, p);
      lock := false;
    }

    /** The best bet is no more than a hint: a malloc that it serves leaves it in place even where this makes
        major `i` the one with more free memory. */
    method MallocFromBet(req: nat, run: int, ghost i: nat) returns (p: int)
      requires Valid() && CanMalloc(req, run) && BetServes(layout, bestBet, req + ALIGNMENT + ALIGN_INFO + HEADER)
      requires i < |layout| && i != IndexOf(layout, bestBet)
      requires var need := req + ALIGNMENT + ALIGN_INFO + HEADER;
               layout[IndexOf(layout, bestBet)].Free() - need < layout[i].Free()
      modifies this
      ensures Valid() && p != 0 && bestBet == old(bestBet) != 0
      ensures IndexOf(layout, bestBet) < |layout| && i < |layout|
      ensures layout[IndexOf(layout, bestBet)].Free() < layout[i].Free()
    {
      hide Rep, ValidLayout, InUse, Allocated, MallocOutcome, SupplierReady, NoneEmpty, StartOf, IndexOf, BetServes, Malloced,
           Region.Free, MallocBet, Target;
      BetFacts(layout, bestBet, req + ALIGNMENT + ALIGN_INFO + HEADER);
      BetShrinks(layout, bestBet, req + ALIGNMENT + ALIGN_INFO, req, run);
      ghost var start := MallocStart(req);
      p := Malloc(req, run);
      OutcomeLayout(old(layout), old(mem), layout, mem, start, req + ALIGNMENT + ALIGN_INFO, req, run, p);
      ScanPlaces(old(layout), old(bestBet), req + ALIGNMENT + ALIGN_INFO + HEADER);
      ServesStays(old(layout), |old(mem)|, req + ALIGNMENT + ALIGN_INFO, run, old(bestBet), bestBet);
      MallocNull(old(layout), old(mem), layout, mem, start, req + ALIGNMENT + ALIGN_INFO, req, run, p);
    }

    /** The request whose padded size wraps around to 0 gets a block of one byte. */
    method MallocWraps(run: int) returns (p: int)
      requires Valid() && SupplierReady(layout, |mem|, MallocStart(1), 1 + ALIGNMENT + ALIGN_INFO, run)
      modifies this
      ensures Valid() && warnings == old(warnings) + if p == 0 then 2 else 1
      ensures p != 0 ==> p !in old(Sees()) && p in Sees() && |Sees()[p]| == 1
    {
      hide Rep, ValidLayout, InUse, Allocated, MallocOutcome, SupplierReady, NoneEmpty, View, InBounds, Live, Block, MallocBet;
      ghost var l, m, start := layout, mem, MallocStart(1);
      p := Malloc(0xFFFF_FFE0, run);
      ValidInBounds(l, m);
      ValidInBounds(layout, mem);
      if p != 0 {
        MallocSees(l, m, layout, mem, start, 1 + ALIGNMENT + ALIGN_INFO, 1, run, p);
      }
    }

    // -------------------------------------------------------------- free

    /** Take `min` out of the chain of its neighbours. */
    method Bypass(min: int)
      requires |mem| <= WORD_LIMIT && InMem(mem, min, HEADER)
      requires var h := MinorAt(mem, min);
               && (h.prev != 0 ==> h.prev + HEADER <= min)
               && (h.next != 0 ==> min + HEADER <= h.next && InMem(mem, h.next, HEADER))
      modifies this`mem
      ensures |mem| == |old(mem)| && MinorAt(mem, min) == old(MinorAt(mem, min))
      ensures var h := old(MinorAt(mem, min));
              && (h.next != 0 ==> MinorAt(mem, h.next) == old(MinorAt(mem, MinorAt(mem, min).next)).(prev := h.prev))
              && (h.prev != 0 ==> MinorAt(mem, h.prev) == old(MinorAt(mem, MinorAt(mem, min).prev)).(next := h.next))
              && OnlyHeaders(old(mem), mem, h.prev, h.next)
    {
      hide Word, PutWord;
      var h := MinorAt(mem, min);
      if h.next != 0 {
        mem := PutWord(mem, h.next + PREV, h.prev);
      }
      if h.prev != 0 {
        mem := PutWord(mem, h.prev + NEXT, h.next);
      }
    }

    /** The header writes of free. */
    method Unhook(min: int, maj: int)
      requires |mem| <= WORD_LIMIT && InMem(mem, min, HEADER) && InMem(mem, maj, HEADER)
      requires var h := MinorAt(mem, min);
               && (if h.prev != 0 then maj + HEADER <= h.prev && h.prev + HEADER <= min else maj + HEADER <= min)
               && (h.next != 0 ==> min + HEADER <= h.next && InMem(mem, h.next, HEADER))
               && 0 <= MajorAt(mem, maj).usage - (h.size + HEADER)
      modifies this`mem
      ensures |mem| == |old(mem)| && MinorAt(mem, min).magic == DEAD
      ensures var h := old(MinorAt(mem, min));
              && (h.next != 0 ==> MinorAt(mem, h.next) == old(MinorAt(mem, MinorAt(mem, min).next)).(prev := h.prev))
              && (h.prev != 0 ==> MinorAt(mem, h.prev) == old(MinorAt(mem, MinorAt(mem, min).prev)).(next := h.next))
              && MajorAt(mem, maj) == var g := old(MajorAt(mem, maj));
                   g.(usage := g.usage - (h.size + HEADER), first := if h.prev == 0 then h.next else g.first)
      ensures var h := old(MinorAt(mem, min));
              forall x | 0 <= x < |mem| ::
                || InHeader(maj, x) || InHeader(min, x)
                || (h.prev != 0 && InHeader(h.prev, x)) || (h.next != 0 && InHeader(h.next, x))
                || mem[x] == old(mem)[x]
    {
      hide Word, PutWord;
      mem := PutWord(mem, maj + MAJ_USAGE, MajorAt(mem, maj).usage - (MinorAt(mem, min).size + HEADER));
      mem := PutWord(mem, min + MIN_MAGIC, DEAD);
      ghost var m1 := mem;
      Bypass(min);
      HeaderFrame(m1, mem, maj);
      if MinorAt(mem, min).prev == 0 {
        mem := PutWord(mem, maj + MAJ_FIRST, MinorAt(mem, min).next);
      }
    }

    /** Free's work inside the major. */
    method Unlink(min: int, maj: int, ghost r: Region, ghost k: nat)
      requires MajorReady(mem, r) && k < |r.allocs| && min == r.allocs[k].addr && maj == r.addr
      requires forall o :: 0 <= o < |r.allocs| ==> AllocRep(mem, r, o)
      modifies this`mem
      ensures Unlinked(old(mem), mem, r, k)
      ensures InMem(mem, min, HEADER) && MinorAt(mem, min).magic == DEAD
    {
      hide Word, PutWord, MajorAt, MinorAt;
      Neighbours(mem, r, k);
      Unhook(min, maj);
      UnlinkedIntro(old(mem), mem, r, k);
    }

    /** Take a major out of the chain of its neighbours. */
    method BypassMajor(maj: int)
      requires |mem| <= WORD_LIMIT && InMem(mem, maj, HEADER)
      requires var h := MajorAt(mem, maj);
               && (h.prev != 0 ==> InMem(mem, h.prev, HEADER)) && (h.next != 0 ==> InMem(mem, h.next, HEADER))
               && (h.prev != 0 && h.next != 0 ==> h.prev + HEADER <= h.next || h.next + HEADER <= h.prev)
      modifies this`mem
      ensures var h := old(MajorAt(mem, maj));
              && |mem| == |old(mem)| && OnlyHeaders(old(mem), mem, h.prev, h.next)
              && (h.prev != 0 ==> MajorAt(mem, h.prev) == old(MajorAt(mem, MajorAt(mem, maj).prev)).(next := h.next))
              && (h.next != 0 ==> MajorAt(mem, h.next) == old(MajorAt(mem, MajorAt(mem, maj).next)).(prev := h.prev))
    {
      hide Word, PutWord;
      var h := MajorAt(mem, maj);
      if h.prev != 0 {
        mem := PutWord(mem, h.prev + NEXT, h.next);
      }
      if h.next != 0 {
        mem := PutWord(mem, h.next + PREV, h.prev);
      }
    }

    /** Free's work on the list of majors once major `j` is empty. */
    method Drop(maj: int, ghost j: nat)
      requires Inv() && j < |layout| && maj == layout[j].addr && layout[j].allocs == []
      modifies this`mem, this`memRoot, this`bestBet, this`bytesAllocated, this`layout
      ensures Inv() && layout == Without(old(layout), j) && bestBet == if old(bestBet) == maj then 0 else old(bestBet)
      ensures OnlyHeaders(old(mem), mem, MajorHeader(old(layout), j).prev, MajorHeader(old(layout), j).next)
    {
      hide MajorAt, Rep, ValidLayout, InUse, Allocated, IndexOf, Region.Usage, Without, OnlyHeaders;
      MajorNeighbours(mem, memRoot, layout, j);
      var h := MajorAt(mem, maj);
      if memRoot == maj {
        memRoot := h.next;
      }
      if bestBet == maj {
        bestBet := 0;
      }
      BypassMajor(maj);
      bytesAllocated := bytesAllocated - h.size;
      DropRep(old(mem), mem, old(memRoot), layout, j);
      DropTotals(layout, |mem|, j, bestBet);
      layout := Without(layout, j);
    }

    /** Everything free does up to the majors. */
    method Detach(min: int, maj: int, ghost p: int)
      requires Inv() && Live(layout, p) && min == Block(layout, p).addr && maj == layout[Locate(layout, p).0].addr
      modifies this`mem, this`layout, this`bytesInUse
      ensures Inv()
      ensures var (j, k) := Locate(old(layout), p); layout == old(layout)[j := old(layout)[j].Remove(k)]
      ensures var j := Locate(old(layout), p).0;
              && |layout[j].allocs| == |old(layout)[j].allocs| - 1 && layout[j].addr == maj
              && layout[j].pages == old(layout)[j].pages && OnlyIn(old(mem), mem, old(layout)[j])
      ensures KeepsUsers(old(mem), mem, old(layout)) && Confined(old(mem), mem, old(layout))
      ensures Alien(mem, p) && Unalign(mem, p) == Block(old(layout), p).addr + HEADER
    {
      hide Word, PutWord, MajorAt, MinorAt, Rep, ValidLayout, InUse, Allocated, KeepsUsers, Confined, Alien, Unalign, IndexOf,
           Region.Remove, Unlinked, Alloc.UserPtr, MajorReady, AllocRep, MinorHeader;
      ghost var (j, k) := Locate(layout, p);
      LiveHeader(mem, memRoot, layout, p);
      LiveSize(layout[j], k);
      ReadyMajor(mem, memRoot, layout, j);
      bytesInUse := bytesInUse - MinorAt(mem, min).size;
      Unlink(min, maj, layout[j], k);
      UnlinkedMajor(old(mem), mem, memRoot, layout, p);
      RemoveLength(layout[j], k);
      layout := layout[j := layout[j].Remove(k)];
    }

    /** Free's comparison of the major it took a block from with the best bet. */
    method Reconsider(maj: int, ghost j: nat)
      requires Inv() && j < |layout| && maj == layout[j].addr
      modifies this`bestBet
      ensures Inv() && FreeBet(layout, maj, false, old(bestBet), bestBet)
    {
      hide Rep, ValidLayout, InUse, Allocated, IndexOf, MajorAt, Region.Free;
      if bestBet != 0 {
        BetInfo(mem, memRoot, layout, bestBet, j);
        var bestSize := Signed(MajorAt(mem, bestBet).size - MajorAt(mem, bestBet).usage);
        var majSize := Signed(MajorAt(mem, maj).size - MajorAt(mem, maj).usage);
        if majSize > bestSize {
          bestBet := maj;
        }
      }
    }

    /** Counting a pointer that leads to no block, and a possible overrun by one to three bytes. */
    method Refuse(magic: int)
      modifies this`errors, this`overruns
      ensures errors == old(errors) + 1
      ensures overruns == old(overruns) + if magic % 0x100 == 0xDE then 1 else 0
    {
      LowByte(magic);
      errors := errors + 1;
      if magic % 0x100_0000 == MAGIC % 0x100_0000 || magic % 0x1_0000 == MAGIC % 0x1_0000 || magic % 0x100 == MAGIC % 0x100 {
        overruns := overruns + 1;
      }
    }

    /** `new_free` up to liballoc_free: `emptied` says that the pages of `maj` are to be given back. */
    method Forget(p: int) returns (emptied: bool, maj: int, pages: nat)
      requires Valid() && (p == 0 || Live(layout, p) || Alien(mem, p))
      modifies this
      ensures faulted == old(faulted)
      ensures p == 0 ==> warnings == old(warnings) + 1
      ensures p != 0 && !Live(old(layout), p) ==>
                errors == old(errors) + 1 && overruns == old(overruns) + if Overrun(old(mem), p) then 1 else 0
      ensures p == 0 || Live(old(layout), p) ==> errors == old(errors) && overruns == old(overruns)
      ensures !Live(old(layout), p) ==>
                Valid() && mem == old(mem) && layout == old(layout) && bestBet == old(bestBet) && !emptied
      ensures Live(old(layout), p) ==>
                Inv() && NoneEmpty(layout) && lock && FreeUnlinked(old(layout), old(mem), layout, mem, p)
      ensures Live(old(layout), p) ==>
                var (j, k) := Locate(old(layout), p);
                var r := old(layout)[j];
                && errors == old(errors) && bytesInUse == old(bytesInUse) - r.allocs[k].size
                && bytesAllocated == old(bytesAllocated) - (if |r.allocs| == 1 then r.Bytes() else 0)
                && (emptied <==> Empties(old(layout), p)) && (emptied ==> maj == r.addr && pages == r.pages)
                && FreeBet(layout, r.addr, emptied, old(bestBet), bestBet)
    {
      hide Word, PutWord, MajorAt, MinorAt, Rep, ValidLayout, InUse, Allocated, KeepsUsers, Confined, IndexOf, NoneEmpty,
           Region.Remove, Alloc.UserPtr, FreeUnlinked, MinorHeader, Region.Free, Unalign, Without, OnlyIn, BetSize;
      emptied, maj, pages := false, 0, 0;
      if Live(layout, p) {
        LiveHeader(mem, memRoot, layout, p);
      }
      if p == 0 {
        warnings := warnings + 1;
        return;
      }
      var ptr := Unalign(mem, p);
      lock := true;
      var min := ptr - HEADER;
      var h := MinorAt(mem, min);
      if h.magic != MAGIC {
        Refuse(h.magic);
        lock := false;
        return;
      }
      ghost var (j, k) := Locate(layout, p);
      maj := h.block;
      LiveSize(layout[j], k);
      Detach(min, maj, p);
      ghost var m1, l1 := mem, layout;
      EmptiedMajor(mem, memRoot, layout, j);
      if MajorAt(mem, maj).first == 0 {
        emptied, pages := true, MajorAt(mem, maj).pages;
        Drop(maj, j);
        FreeUnlinkedDrop(old(layout), l1, old(mem), m1, mem, p);
      } else {
        Reconsider(maj, j);
        FreeUnlinkedKeep(old(layout), old(mem), mem, p);
      }
      FreeNoneEmpty(old(layout), |old(mem)|, old(mem), layout, mem, p);
      FreeTotals(old(layout), old(mem), layout, mem, p);
    }

    /** mm_free_pages on `n` pages, from `a` downwards, handing their addresses to free_frame; `frames` are the
        frames whose bits are cleared. `halted`: free_frame panicked, or a page was not present. */
    method FreePages(a: int, n: nat, here: Pages) returns (halted: bool, frames: seq<nat>)
      modifies this`mem
      ensures |mem| == |old(mem)|
      ensures match GiveBack(old(mem), here, a, n)
              case Halts => halted
              case Given(m, fs) => !halted && mem == m && frames == fs
    {
      hide Word, PutWord, Heavy;
      var p, left: nat := a, n;
      frames := [];
      while left > 0
        invariant |mem| == |old(mem)| && left <= n
        invariant GiveBack(old(mem), here, a, n) == Prefixed(frames, GiveBack(mem, here, p, left))
        decreases left
      {
        left := left - 1;
        p := p - 0x1000;
        if !Heavy(mem, here, p) {
          return true, frames;
        }
        var w := HeavyWord(mem, here, p);
        frames := frames + [w / 0x1000];
        mem := PutWord(mem, p, w % 0x1000);
      }
      assert frames + [] == frames;
      halted := false;
    }

    /** The word free_frame takes for a page table entry. */
    method HeavyWord(m: Mem, here: Pages, z: int) returns (w: nat)
      requires Heavy(m, here, z)
      ensures InMem(m, z, 4) && w == Word(m, z)
    {
      w := Word(m, z);
    }

    /** `new_free`. `here` says which pages are present; `m1` is memory before pages are given back. */
    method Free(p: int, here: Pages) returns (halted: bool, frames: seq<nat>, ghost m1: Mem)
      requires Valid() && (p == 0 || Live(layout, p) || Alien(mem, p))
      modifies this
      ensures faulted <==> old(faulted) || halted
      ensures p == 0 ==> warnings == old(warnings) + 1
      ensures p != 0 && !Live(old(layout), p) ==>
                errors == old(errors) + 1 && overruns == old(overruns) + if Overrun(old(mem), p) then 1 else 0
      ensures p == 0 || Live(old(layout), p) ==> errors == old(errors) && overruns == old(overruns)
      ensures !Live(old(layout), p) ==>
                !halted && frames == [] && Valid() && mem == old(mem) && layout == old(layout) && bestBet == old(bestBet)
      // a live block goes, with all bookkeeping, and pages are given back if it was the last of its major
      ensures Live(old(layout), p) ==>
                var (j, k) := Locate(old(layout), p);
                var r := old(layout)[j];
                && FreeEnds(old(layout), old(mem), here, layout, m1, mem, halted, p) && errors == old(errors)
                && bytesInUse == old(bytesInUse) - r.allocs[k].size
                && bytesAllocated == old(bytesAllocated) - (if |r.allocs| == 1 then r.Bytes() else 0)
                && bytesInUse == InUse(layout) && bytesAllocated == Allocated(layout) && memRoot == FirstRegion(layout)
                && (!halted && |r.allocs| != 1 ==> frames == [])
                && (!halted && |r.allocs| == 1 && r.pages >= 0 ==> GiveBack(m1, here, r.addr, r.pages) == Given(mem, frames))
                && FreeBet(layout, r.addr, |r.allocs| == 1, old(bestBet), bestBet)
      // exactly the harmless frees leave the heap in order, with everything else that callers see
      ensures Live(old(layout), p) ==>
                (Harmless(old(layout), old(mem), here, p) <==> Shown(old(Sees()) - {p}))
      ensures Live(old(layout), p) && Harmless(old(layout), old(mem), here, p) ==>
                !halted && FreeOutcome(old(layout), old(mem), layout, mem, p)
    {
      hide Rep, ValidLayout, InUse, Allocated, View, IndexOf, Alloc.UserPtr, Alien, NoneEmpty, Harmless,
           FreeUnlinked, GiveBack, FreeOutcome, FreeEnds, InBounds, Shows, SameProtected, FreeBet;
      ValidInBounds(layout, mem);
      if Live(layout, p) {
        RegionAligned(layout, |mem|, Locate(layout, p).0);
      }
      halted, frames := false, [];
      var emptied, maj, pages := Forget(p);
      m1 := mem;
      if Live(old(layout), p) {
        RootIs(mem, memRoot, layout);
        UnlinkedOutcome(old(layout), old(mem), layout, m1, p);
        ValidInBounds(layout, m1);
        FreeView(old(layout), old(mem), layout, m1, p);
        ShowsIntro(layout, m1, memRoot);
      }
      if emptied {
        halted, frames := FreePages(maj, pages, here);
        if halted {
          faulted := true;
          FreeEndsIntro(old(layout), old(mem), here, layout, m1, mem, true, p);
          HarmlessExactly(old(layout), old(mem), here, layout, m1, mem, true, p, memRoot, View(layout, m1));
          return;
        }
      }
      lock := false;
      if Live(old(layout), p) {
        FreeEndsIntro(old(layout), old(mem), here, layout, m1, mem, false, p);
        HarmlessExactly(old(layout), old(mem), here, layout, m1, mem, false, p, memRoot, View(layout, m1));
        if Harmless(old(layout), old(mem), here, p) {
          HarmlessFree(old(layout), old(mem), here, layout, m1, mem, false, p);
        }
        ShowsElim(layout, mem, memRoot, View(layout, m1));
        ValidInBounds(layout, mem);
      }
    }

    // -------------------------------------------------------------- the caller's view

    /** The live pointers and their bytes. */
    ghost function Sees(): Contents
      requires Valid()
      reads this
    {
      ValidInBounds(layout, mem);
      View(layout, mem)
    }

    /** The heap is as it should be, and callers see `c`. */
    ghost predicate Shown(c: Contents)
      reads this
    {
      Valid() && Sees() == c
    }

    /** Isolation: what callers see are aligned ranges of memory, pairwise disjoint and clear of every header. */
    lemma Isolation(x: int, y: int)
      requires Valid() && x in Sees() && y in Sees()
      ensures x % ALIGNMENT == 0 && InMem(mem, x, |Sees()[x]|) && Sees()[x] == mem[x..x + |Sees()[x]|]
      ensures x != y ==> x + |Sees()[x]| <= y || y + |Sees()[y]| <= x
      ensures ClearOfHeaders(layout, x, |Sees()[x]|)
    {
      hide Rep, ValidLayout, InUse, Allocated, IndexOf, Alloc.UserPtr, Block, Live, Word, ClearOfHeaders, View, NoneEmpty;
      ValidInBounds(layout, mem);
      ViewKeys(layout, mem, x);
      ViewKeys(layout, mem, y);
      ViewAt(layout, mem, x);
      ViewAt(layout, mem, y);
      BoundsAt(layout, mem, x);
      BoundsAt(layout, mem, y);
      AlignBounds(Block(layout, x));
      BlockClear(layout, |mem|, x);
      if x != y {
        TwoBlocks(layout, mem, x, y);
      }
    }

    /** A caller writes one byte of its own block. */
    method StoreByte(p: int, i: nat, b: Byte)
      requires Valid() && Live(layout, p) && i < Block(layout, p).req
      modifies this`mem
      ensures Valid() && layout == old(layout) && OnlyBody(old(mem), mem, Block(layout, p))
      ensures p in old(Sees()) && i < |old(Sees())[p]|
      ensures Sees() == old(Sees())[p := SetByte(old(Sees())[p], i, b)]
    {
      hide Rep, ValidLayout, InUse, Allocated, View, IndexOf, Alloc.UserPtr, Block, Live, Word;
      ValidInBounds(layout, mem);
      BoundsAt(layout, mem, p);
      ViewAt(layout, mem, p);
      mem := mem[p + i := b];
      ghost var (j, k) := Locate(layout, p);
      BlockIs(layout, p);
      BodyWriteRep(old(mem), mem, memRoot, layout, j, k);
      BodyWriteView(old(mem), mem, layout, p);
      assert mem[p..p + Block(layout, p).req] == old(mem)[p..p + Block(layout, p).req][i := b];
    }

    /** `liballoc_memcpy`: whole words first, then the bytes that are left. */
    method Memcpy(dst: int, src: int, n: nat)
      requires InMem(mem, dst, n) && InMem(mem, src, n) && (dst + n <= src || src + n <= dst)
      modifies this`mem
      ensures Copied(old(mem), mem, dst, src, n)
    {
      hide Word, PutWord, Copied;
      var d, s, left := dst, src, n;
      CopyBegins(mem, dst, src);
      while left >= 4
        invariant 0 <= left <= n && d == dst + (n - left) && s == src + (n - left)
        invariant Copied(old(mem), mem, dst, src, n - left) && |mem| == |old(mem)|
      {
        ghost var m1 := mem;
        mem := PutWord(mem, d, Word(mem, s));
        WordCopied(m1, mem, s, d);
        CopyExtends(old(mem), m1, mem, dst, src, n - left, 4);
        d := d + 4;
        s := s + 4;
        left := left - 4;
      }
      while left > 0
        invariant 0 <= left <= n && d == dst + (n - left) && s == src + (n - left)
        invariant Copied(old(mem), mem, dst, src, n - left) && |mem| == |old(mem)|
      {
        ghost var m1 := mem;
        mem := mem[d := mem[s]];
        CopyExtends(old(mem), m1, mem, dst, src, n - left, 1);
        d := d + 1;
        s := s + 1;
        left := left - 1;
      }
    }

    /** The in-place branch of realloc: the block is big enough already. */
    method Shrink(p: int, min: int, size: nat)
      requires Inv() && Live(layout, p) && min == Block(layout, p).addr && size <= Block(layout, p).req
      modifies this`mem, this`layout
      ensures Inv() && |mem| == |old(mem)| && layout == Resized(old(layout), p, size)
      ensures NoneEmpty(old(layout)) ==> NoneEmpty(layout)
      ensures forall x :: 0 <= x < |mem| && !InHeader(min, x) ==> mem[x] == old(mem)[x]
    {
      hide Word, PutWord, Rep, ValidLayout, InUse, Allocated, IndexOf, NoneEmpty, ResizedAt, Alloc.UserPtr;
      LiveHeader(mem, memRoot, layout, p);
      ghost var (j, k) := Locate(layout, p);
      BlockIs(layout, p);
      BlockInMem(layout, mem, p);
      mem := PutWord(mem, min + MIN_REQ, size);
      ResizeLayout(layout, |mem|, j, k, size);
      ResizeRep(old(mem), mem, memRoot, layout, j, k, size);
      layout := ResizedAt(layout, j, k, size);
    }

    /** The page supplier can serve the malloc that realloc may make. */
    ghost predicate CanMalloc(req: int, run: int)
      reads this
    {
      RequestFits(req) && SupplierReady(layout, |mem|, MallocStart(req), req + ALIGNMENT + ALIGN_INFO, run)
    }

    /** liballoc_memcpy of block `p` into block `q`. */
    method CopyTo(q: int, p: int, n: nat, ghost size: nat)
      requires Valid() && Live(layout, p) && Live(layout, q) && p != q
      requires n == Block(layout, p).req && size == Block(layout, q).req && n <= size
      modifies this`mem
      ensures Valid() && |mem| == |old(mem)| && InMem(mem, q, size)
      ensures OnlyBody(old(mem), mem, Block(layout, q)) && Copied(old(mem), mem, q, p, n)
      ensures p in old(Sees()) && mem[q..q + n] == old(Sees())[p]
      ensures Sees() == old(Sees())[q := mem[q..q + size]]
    {
      hide Rep, ValidLayout, InUse, Allocated, View, IndexOf, Alloc.UserPtr, Block, Live, Word, NoneEmpty, InBounds, Copied;
      ValidInBounds(layout, mem);
      TwoBlocks(layout, mem, p, q);
      ViewAt(layout, mem, p);
      BoundsAt(layout, mem, p);
      BoundsAt(layout, mem, q);
      Memcpy(q, p, n);
      CopiedBody(old(mem), mem, layout, memRoot, q, p, n);
      ViewAt(layout, mem, q);
      BoundsAt(layout, mem, q);
      assert mem[q..q + size][..n] == mem[q..q + n];
    }

    /** The moving branch of realloc, for a block smaller than `size`. When malloc fails, copying to
        NULL faults, unless there is nothing to copy: then the old block is freed all the same. */
    method Move(p: int, oldReq: nat, size: nat, run: int, here: Pages)
      returns (q: int, halted: bool, ghost l1: Layout, ghost m1: Mem, ghost m2: Mem, ghost m3: Mem)
      requires Valid() && Live(layout, p) && oldReq == Block(layout, p).req && oldReq < size && CanMalloc(size, run)
      modifies this
      ensures (faulted <==> old(faulted) || halted) && p in old(Sees()) && Live(l1, p)
      ensures q == 0 <==> Target(old(layout), size + ALIGNMENT + ALIGN_INFO + HEADER, old(MallocStart(size))) == |old(layout)|
                          && run == 0
      // no memory, and something to copy
      ensures q == 0 && oldReq > 0 ==> halted && Valid() && Sees() == old(Sees())
      // what the copy does, and what the free leaves
      ensures q != 0 ==>
                && q !in old(Sees()) && InMem(m2, q, size) && m2[q..q + oldReq] == old(Sees())[p]
                && (Harmless(l1, m2, here, p) <==> Shown((old(Sees()) - {p})[q := m2[q..q + size]]))
      ensures q == 0 && oldReq == 0 ==> (Harmless(l1, m2, here, p) <==> Shown(old(Sees()) - {p}))
      ensures !(q == 0 && oldReq > 0) && Harmless(l1, m2, here, p) ==> !halted
      // the steps: a malloc, a write into the new block, a free
      ensures MoveSteps(old(layout), old(mem), old(MallocStart(size)), oldReq, size, run, here, p, q, l1, m1, m2, m3,
                        layout, mem, halted)
    {
      hide Rep, ValidLayout, InUse, Allocated, View, IndexOf, Alloc.UserPtr, Block, Live, Word, MallocOutcome, FreeOutcome,
           NoneEmpty, InBounds, SupplierReady, Target, Copied, Alien, Malloced, MoveSteps, Harmless, FreeEnds,
           MallocBet, FreeBet;
      ValidInBounds(layout, mem);
      ViewAt(layout, mem, p);
      BoundsAt(layout, mem, p);
      ghost var start := MallocStart(size);
      q := Malloc(size, run);
      m1, l1, m2, m3 := mem, layout, mem, mem;
      ValidInBounds(layout, mem);
      MallocNull(old(layout), old(mem), layout, mem, start, size + ALIGNMENT + ALIGN_INFO, size, run, q);
      if q == 0 && oldReq > 0 {
        halted := true;
        faulted := true;
        MovedSteps(old(layout), old(mem), start, oldReq, size, run, here, p, q, l1, m1, m2, m3, layout, mem, true);
        return;
      }
      if q != 0 {
        MallocSees(old(layout), old(mem), l1, m1, start, size + ALIGNMENT + ALIGN_INFO, size, run, q);
        ViewKeys(old(layout), old(mem), q);
        CopyTo(q, p, oldReq, size);
      }
      m2 := mem;
      var frames;
      halted, frames, m3 := Free(p, here);
      MovedSteps(old(layout), old(mem), start, oldReq, size, run, here, p, q, l1, m1, m2, m3, layout, mem, halted);
    }

    /** `new_realloc`. `here` says which pages are present. */
    method Realloc(p: int, size: nat, run: int, here: Pages)
      returns (q: int, halted: bool, ghost l1: Layout, ghost m1: Mem, ghost m2: Mem, ghost m3: Mem)
      requires Valid() && (p == 0 || Live(layout, p) || Alien(mem, p))
      requires size > 0 && (p == 0 || (Live(layout, p) && Block(layout, p).req < size)) ==> CanMalloc(size, run)
      modifies this
      ensures faulted <==> old(faulted) || halted
      // a size of 0 frees
      ensures size == 0 ==> q == 0
      ensures size == 0 && Live(old(layout), p) ==>
                && (Harmless(old(layout), old(mem), here, p) <==> Shown(old(Sees()) - {p}))
                && (Harmless(old(layout), old(mem), here, p) ==> !halted)
                && FreeEnds(old(layout), old(mem), here, layout, m3, mem, halted, p)
      // NULL allocates
      ensures size > 0 && p == 0 ==>
                && MallocOutcome(old(layout), old(mem), layout, mem, old(MallocStart(size)),
                                 size + ALIGNMENT + ALIGN_INFO, size, run, q)
                && Valid() && !halted
      // a pointer that is no block is refused
      ensures size > 0 && p != 0 && !Live(old(layout), p) ==>
                q == 0 && errors == old(errors) + 1 && overruns == old(overruns) + if Overrun(old(mem), p) then 1 else 0
      ensures !Live(old(layout), p) && (size == 0 || p != 0) ==>
                !halted && Valid() && layout == old(layout) && mem == old(mem) && Sees() == old(Sees())
      ensures Live(old(layout), p) ==> p in old(Sees())
      // a block that is big enough stays, cut to the new size
      ensures size > 0 && Live(old(layout), p) && |old(Sees())[p]| >= size ==>
                && q == p && !halted && Valid() && Sees() == old(Sees())[p := old(Sees())[p][..size]]
                && size <= Block(old(layout), p).req && layout == Resized(old(layout), p, size) && |mem| == |old(mem)|
                && forall x :: 0 <= x < |mem| && !InHeader(Block(old(layout), p).addr, x) ==> mem[x] == old(mem)[x]
      // a smaller one moves, keeping its bytes, if the old block can go harmlessly
      ensures size > 0 && Live(old(layout), p) && |old(Sees())[p]| < size && q != 0 ==>
                && Live(l1, p) && q !in old(Sees()) && InMem(m2, q, size)
                && m2[q..q + |old(Sees())[p]|] == old(Sees())[p]
                && (Harmless(l1, m2, here, p) ==> !halted)
                && (Harmless(l1, m2, here, p) <==> Shown((old(Sees()) - {p})[q := m2[q..q + size]]))
      // or is lost, or faults, when there is no memory
      ensures size > 0 && Live(old(layout), p) && |old(Sees())[p]| < size ==>
                (q == 0 <==> Target(old(layout), size + ALIGNMENT + ALIGN_INFO + HEADER, old(MallocStart(size))) == |old(layout)|
                             && run == 0)
      ensures size > 0 && Live(old(layout), p) && |old(Sees())[p]| < size && q == 0 ==>
                if old(Sees())[p] != [] then halted && Valid() && Sees() == old(Sees())
                else Live(l1, p) && (Harmless(l1, m2, here, p) <==> Shown(old(Sees()) - {p}))
      // what a move is made of
      ensures size > 0 && Live(old(layout), p) && Block(old(layout), p).req < size ==>
                && 0 <= Block(old(layout), p).req
                && MoveSteps(old(layout), old(mem), old(MallocStart(size)), Block(old(layout), p).req, size, run, here, p, q,
                             l1, m1, m2, m3, layout, mem, halted)
    {
      hide Rep, ValidLayout, InUse, Allocated, View, IndexOf, Alloc.UserPtr, Block, Live, Word, MallocOutcome, FreeOutcome,
           NoneEmpty, InBounds, SupplierReady, Target, MajorAt, MinorAt, Unalign, Resized, MoveSteps, Harmless, FreeEnds,
           MallocBet, FreeBet;
      halted := false;
      l1, m1, m2, m3 := layout, mem, mem, mem;
      ValidInBounds(layout, mem);
      ViewKeys(layout, mem, p);
      NullNotLive(layout, |mem|);
      if Live(layout, p) {
        LiveHeader(mem, memRoot, layout, p);
        LiveReq(layout, p);
        ViewAt(layout, mem, p);
        BoundsAt(layout, mem, p);
      }
      if size == 0 {
        var frames;
        halted, frames, m3 := Free(p, here);
        q := 0;
        return;
      }
      if p == 0 {
        q := Malloc(size, run);
        return;
      }
      var ptr := Unalign(mem, p);
      lock := true;
      var min := ptr - HEADER;
      var h := MinorAt(mem, min);
      if h.magic != MAGIC {
        Refuse(h.magic);
        lock := false;
        q := 0;
        return;
      }
      if h.req >= size {
        Shrink(p, min, size);
        lock := false;
        ValidInBounds(layout, mem);
        ResizeView(old(mem), mem, old(layout), p, size);
        assert old(mem)[p..p + size] == old(mem)[p..p + h.req][..size];
        q := p;
        return;
      }
      lock := false;
      q, halted, l1, m1, m2, m3 := Move(p, h.req, size, run, here);
    }

    /** Free undoes malloc, through the pointer alone: always as far as majors, minors and totals go, and as
        far as memory goes whenever malloc found room, or else if and only if its new pages can be given
        back harmlessly. */
    method MallocThenFree(req: nat, run: int, here: Pages) returns (p: int, halted: bool, ghost l1: Layout, ghost m1: Mem)
      requires Valid() && CanMalloc(req, run)
      modifies this
      ensures layout == old(layout) && memRoot == old(memRoot)
      ensures bytesInUse == old(bytesInUse) && bytesAllocated == old(bytesAllocated)
      ensures p == 0 ==> !halted && Valid() && Sees() == old(Sees())
      ensures p != 0 ==>
                && Live(l1, p) && MallocOutcome(old(layout), old(mem), l1, m1, old(MallocStart(req)),
                                                req + ALIGNMENT + ALIGN_INFO, req, run, p)
                && (Harmless(l1, m1, here, p) <==> Shown(old(Sees())))
                && (Harmless(l1, m1, here, p) ==> !halted)
                && (Target(old(layout), req + ALIGNMENT + ALIGN_INFO + HEADER, old(MallocStart(req))) < |old(layout)| ==>
                      Harmless(l1, m1, here, p))
    {
      hide Rep, ValidLayout, InUse, Allocated, View, IndexOf, Alloc.UserPtr, Block, Live, MallocOutcome, FreeOutcome,
           NoneEmpty, InBounds, SupplierReady, Target, Alien, Harmless, FreeEnds, MallocBet, FreeBet;
      ghost var start := MallocStart(req);
      halted := false;
      RootIs(mem, memRoot, layout);
      ValidInBounds(layout, mem);
      p := Malloc(req, run);
      m1, l1 := mem, layout;
      ValidInBounds(l1, m1);
      MallocNull(old(layout), old(mem), l1, m1, start, req + ALIGNMENT + ALIGN_INFO, req, run, p);
      if p != 0 {
        MallocSees(old(layout), old(mem), l1, m1, start, req + ALIGNMENT + ALIGN_INFO, req, run, p);
        AddThenTake(View(old(layout), old(mem)), p, m1[p..p + req]);
        FoundHarmless(old(layout), old(mem), l1, m1, here, start, req + ALIGNMENT + ALIGN_INFO, req, run, p);
        ghost var m2;
        var frames;
        halted, frames, m2 := Free(p, here);
        UndoneLayout(old(layout), old(mem), l1, m1, here, layout, m2, mem, halted, start, req + ALIGNMENT + ALIGN_INFO, req,
                     run, p);
      } else {
        RootIs(mem, memRoot, layout);
      }
    }

    /** A second free of the same pointer, when the first was harmless, is refused and changes nothing but
        the error count. */
    method FreeTwice(p: int, here: Pages)
      requires Valid() && Live(layout, p) && Harmless(layout, mem, here, p)
      modifies this
      ensures Valid() && Live(old(layout), p) && layout == Freed(old(layout), p)
      ensures errors == old(errors) + 1 && Sees() == old(Sees()) - {p}
    {
      hide Rep, ValidLayout, InUse, Allocated, View, IndexOf, Alloc.UserPtr, Block, NoneEmpty, InBounds, Alien, Harmless,
           FreeEnds, FreeBet;
      ghost var m1;
      var halted, frames;
      halted, frames, m1 := Free(p, here);
      FreedNotLive(old(layout), |old(mem)|, layout, p);
      NullNotLive(old(layout), |old(mem)|);
      halted, frames, m1 := Free(p, here);
    }
  }
}
