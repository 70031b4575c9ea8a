/** How a layout is spelled out in memory: two levels of doubly linked headers, and the
    hidden alignment byte of every allocation. */
module HeapHeaders {
  import opened Memory
  import opened HeapLayout
  import opened HeapSearch

  const MAGIC := 0xc001c0de
  const DEAD := 0xdeaddead

  function FirstRegion(l: Layout): int {
    if l == [] then 0 else l[0].addr
  }

  function FirstAlloc(r: Region): int {
    if r.allocs == [] then 0 else r.allocs[0].addr
  }

  function MajorHeader(l: Layout, j: nat): Major
    requires j < |l|
  {
    Major(if j == 0 then 0 else l[j - 1].addr, if j + 1 == |l| then 0 else l[j + 1].addr,
          l[j].pages, l[j].Bytes(), l[j].Usage(), FirstAlloc(l[j]))
  }

  function MinorHeader(r: Region, k: nat): Minor
    requires k < |r.allocs|
  {
    Minor(if k == 0 then 0 else r.allocs[k - 1].addr, if k + 1 == |r.allocs| then 0 else r.allocs[k + 1].addr,
          r.addr, MAGIC, r.allocs[k].size, r.allocs[k].req)
  }

  ghost predicate RegionRep(m: Mem, l: Layout, j: nat)
    requires j < |l|
  {
    InMem(m, l[j].addr, HEADER) && MajorAt(m, l[j].addr) == MajorHeader(l, j)
  }

  /** The byte that tells free how far the returned pointer is from the header. */
  ghost predicate HiddenByte(m: Mem, a: Alloc) {
    var h := a.UserPtr() - ALIGN_INFO;
    0 <= h < |m| && m[h] as int == a.UserPtr() - a.addr - HEADER
  }

  ghost predicate AllocRep(m: Mem, r: Region, k: nat)
    requires k < |r.allocs|
  {
    var a := r.allocs[k];
    InMem(m, a.addr, HEADER) && MinorAt(m, a.addr) == MinorHeader(r, k) && HiddenByte(m, a)
  }

  /** Memory `m` holds the layout `l`, and `root` points to its first major. */
  ghost predicate Rep(m: Mem, root: int, l: Layout) {
    && root == FirstRegion(l)
    && (forall j :: 0 <= j < |l| ==> RegionRep(m, l, j))
    && (forall j, k :: 0 <= j < |l| && 0 <= k < |l[j].allocs| ==> AllocRep(m, l[j], k))
  }

  lemma RepIntro(m: Mem, root: int, l: Layout)
    requires root == FirstRegion(l)
    requires forall j :: 0 <= j < |l| ==> RegionRep(m, l, j)
    requires forall j, k :: 0 <= j < |l| && 0 <= k < |l[j].allocs| ==> AllocRep(m, l[j], k)
    ensures Rep(m, root, l)
  {
  }

  lemma RepElim(m: Mem, root: int, l: Layout)
    requires Rep(m, root, l)
    ensures root == FirstRegion(l)
    ensures forall j :: 0 <= j < |l| ==> RegionRep(m, l, j)
    ensures forall j, k :: 0 <= j < |l| && 0 <= k < |l[j].allocs| ==> AllocRep(m, l[j], k)
  {
  }

  // ---------------------------------------------------------------- disjointness

  /** Isolation of extents: an allocation, header included, overlaps no other allocation and no
      major's header; its caller's bytes are aligned and lie strictly inside it, behind its own
      header and hidden byte. */
  lemma Isolated(l: Layout, limit: int, j: nat, k: nat, i: nat, b: nat)
    requires ValidLayout(l, limit)
    requires j < |l| && k < |l[j].allocs| && i < |l| && b < |l[i].allocs|
    ensures var p, q := l[j].allocs[k], l[i].allocs[b];
            && p.UserPtr() % ALIGNMENT == 0
            && 0 <= p.req && p.addr + HEADER < p.UserPtr() && p.UserPtr() + p.req <= p.End() <= limit
            && (p.End() <= l[i].addr || l[i].addr + HEADER <= p.addr)
            && ((j, k) != (i, b) ==> p.End() <= q.addr || q.End() <= p.addr)
  {
    AlignBounds(l[j].allocs[k]);
    if j != i {
      assert Apart(l[j], l[i]);
    }
  }

  /** The user pointer determines the allocation. */
  lemma PointersDistinct(l: Layout, limit: int, j: nat, k: nat, i: nat, b: nat)
    requires ValidLayout(l, limit)
    requires j < |l| && k < |l[j].allocs| && i < |l| && b < |l[i].allocs|
    requires l[j].allocs[k].UserPtr() == l[i].allocs[b].UserPtr()
    ensures j == i && k == b
  {
    Isolated(l, limit, j, k, i, b);
    Isolated(l, limit, i, b, j, k);
    AlignBounds(l[j].allocs[k]);
    AlignBounds(l[i].allocs[b]);
  }

  // ---------------------------------------------------------------- changing one major

  /** Nothing changed outside the region. */
  ghost predicate OnlyIn(m: Mem, m': Mem, r: Region) {
    |m'| == |m| && forall x :: 0 <= x < |m| && !(r.addr <= x < r.End()) ==> m'[x] == m[x]
  }

  /** A major's region that keeps its bytes keeps its minors. */
  lemma RegionFrame(m: Mem, m': Mem, s: Region)
    requires s.Valid() && s.End() <= |m| && Same(m, m', s.addr + HEADER, s.End())
    requires forall k :: 0 <= k < |s.allocs| ==> AllocRep(m, s, k)
    ensures forall k :: 0 <= k < |s.allocs| ==> AllocRep(m', s, k)
  {
    hide Word;
    forall k | 0 <= k < |s.allocs| ensures AllocRep(m', s, k) {
      assert AllocRep(m, s, k);
      AlignBounds(s.allocs[k]);
      HeaderFrame(m, m', s.allocs[k].addr);
    }
  }

  lemma OtherMajor(m: Mem, m': Mem, l: Layout, j: nat, r: Region, i: nat)
    requires ValidLayout(l, |m|) && j < |l| && i < |l| && i != j && RegionRep(m, l, i)
    requires r.addr == l[j].addr && OnlyIn(m, m', l[j])
    requires forall b :: 0 <= b < |l[i].allocs| ==> AllocRep(m, l[i], b)
    ensures RegionRep(m', l[j := r], i)
    ensures forall b :: 0 <= b < |l[i].allocs| ==> AllocRep(m', l[i], b)
  {
    hide Word, MajorAt, MinorAt, AllocRep;
    assert Apart(l[j], l[i]);
    HeaderFrame(m, m', l[i].addr);
    RegionFrame(m, m', l[i]);
  }

  /** To change one major it is enough to get that major right and stay inside it. */
  lemma UpdateRep(m: Mem, m': Mem, root: int, l: Layout, j: nat, r: Region)
    requires ValidLayout(l, |m|) && Rep(m, root, l) && j < |l|
    requires r.addr == l[j].addr && OnlyIn(m, m', l[j])
    requires RegionRep(m', l[j := r], j) && forall b :: 0 <= b < |r.allocs| ==> AllocRep(m', r, b)
    ensures Rep(m', root, l[j := r])
  {
    hide *;
    var l' := l[j := r];
    RepElim(m, root, l);
    forall i | 0 <= i < |l|
      ensures RegionRep(m', l', i)
      ensures forall b :: 0 <= b < |l'[i].allocs| ==> AllocRep(m', l'[i], b)
    {
      if i != j {
        OtherMajor(m, m', l, j, r, i);
      }
    }
    SameFirstRegion(l, j, r);
    RepIntro(m', root, l[j := r]);
  }

  lemma SameFirstRegion(l: Layout, j: nat, r: Region)
    requires j < |l| && r.addr == l[j].addr
    ensures FirstRegion(l[j := r]) == FirstRegion(l)
  {
  }

  // ---------------------------------------------------------------- inserting a minor

  ghost predicate InHeader(a: int, x: int) { a <= x < a + HEADER }

  /** The header bytes an insertion at gap `k` of `r` may write. */
  ghost predicate Hooks(r: Region, k: nat, a: Alloc, x: int)
    requires k <= |r.allocs|
  {
    || InHeader(r.addr, x)
    || (k > 0 && InHeader(r.allocs[k - 1].addr, x))
    || (k < |r.allocs| && InHeader(r.allocs[k].addr, x))
    || InHeader(a.addr, x)
  }

  /** What the header writes of CASE 2, 3, 4.1 and 4.2 all amount to, `m'` against `m`. */
  ghost predicate Hooked(m: Mem, m': Mem, r: Region, k: nat, a: Alloc)
    requires k <= |r.allocs|
  {
    && |m'| == |m| && InMem(m, r.addr, HEADER) && InMem(m, a.addr, HEADER)
    && MinorAt(m', a.addr) == MinorHeader(r.Insert(k, a), k)
    && (k > 0 ==>
          && InMem(m, r.allocs[k - 1].addr, HEADER)
          && MinorAt(m', r.allocs[k - 1].addr) == MinorAt(m, r.allocs[k - 1].addr).(next := a.addr))
    && (k < |r.allocs| ==>
          && InMem(m, r.allocs[k].addr, HEADER)
          && MinorAt(m', r.allocs[k].addr) == MinorAt(m, r.allocs[k].addr).(prev := a.addr))
    && MajorAt(m', r.addr) == MajorAt(m, r.addr).(usage := r.Usage() + a.size + HEADER,
                                                   first := if k == 0 then a.addr else FirstAlloc(r))
  }

  /** The bytes an insertion may write, the new block's body included. */
  ghost predicate Touched(r: Region, k: nat, a: Alloc, x: int)
    requires k <= |r.allocs|
  {
    Hooks(r, k, a, x) || a.addr + HEADER <= x < a.End()
  }

  ghost predicate Linked(m: Mem, m': Mem, r: Region, k: nat, a: Alloc)
    requires k <= |r.allocs|
  {
    && Hooked(m, m', r, k, a) && HiddenByte(m', a)
    && forall x :: 0 <= x < |m| && !Touched(r, k, a, x) ==> m'[x] == m[x]
  }

  /** Writing the hidden byte and clearing the body does not disturb the headers. */
  lemma LinkedAfterBody(m: Mem, m1: Mem, m': Mem, r: Region, k: nat, a: Alloc)
    requires r.Valid() && k <= |r.allocs| && r.Insert(k, a).Valid() && r.End() <= |m|
    requires Hooked(m, m1, r, k, a) && |m'| == |m| && HiddenByte(m', a)
    requires forall x :: 0 <= x < |m| && !Hooks(r, k, a, x) ==> m1[x] == m[x]
    requires forall x :: 0 <= x < |m| && !(a.addr + HEADER <= x < a.End()) ==> m'[x] == m1[x]
    ensures Linked(m, m', r, k, a)
  {
    hide Word, MajorAt, MinorAt, MinorHeader;
    assert r.Insert(k, a).allocs[k] == a;
    HeaderFrame(m1, m', a.addr);
    HeaderFrame(m1, m', r.addr);
    if k > 0 {
      InsertApart(r, k, a, k - 1);
      HeaderFrame(m1, m', r.allocs[k - 1].addr);
    }
    if k < |r.allocs| {
      InsertApart(r, k, a, k);
      HeaderFrame(m1, m', r.allocs[k].addr);
    }
  }

  lemma UsageInsert(r: Region, k: nat, a: Alloc)
    requires k <= |r.allocs|
    ensures r.Insert(k, a).Usage() == r.Usage() + a.size + HEADER
  {
    SizesInsert(r.allocs, k, a);
  }

  /** Where allocation `o` of `r` ends up, and how its header has to change. */
  lemma HeaderAfterInsert(r: Region, k: nat, a: Alloc, o: nat)
    requires k <= |r.allocs| && o < |r.allocs|
    ensures var r', b := r.Insert(k, a), if o < k then o else o + 1;
            var h := MinorHeader(r, o);
            && r'.allocs[b] == r.allocs[o]
            && MinorHeader(r', b) == (if o + 1 == k then h.(next := a.addr)
                                      else if o == k then h.(prev := a.addr) else h)
  {
  }

  lemma HiddenByteFrame(m: Mem, m': Mem, a: Alloc)
    requires 0 <= a.addr && a.End() <= |m| && 0 <= a.req && a.req + ALIGNMENT + ALIGN_INFO <= a.size
    requires Same(m, m', a.addr + HEADER, a.End())
    ensures HiddenByte(m, a) ==> HiddenByte(m', a)
  {
    AlignBounds(a);
  }

  lemma InsertApart(r: Region, k: nat, a: Alloc, o: nat)
    requires k <= |r.allocs| && r.Insert(k, a).Valid() && o < |r.allocs|
    ensures r.allocs[o].End() <= a.addr || a.End() <= r.allocs[o].addr
  {
    var s, b := r.Insert(k, a).allocs, if o < k then o else o + 1;
    assert s[k] == a && s[b] == r.allocs[o];
  }

  /** An insertion leaves the body of every other allocation alone, and the header of all but its neighbours. */
  lemma OwnUntouched(r: Region, k: nat, a: Alloc, o: nat, x: int)
    requires r.Valid() && k <= |r.allocs| && r.Insert(k, a).Valid() && o < |r.allocs|
    requires r.allocs[o].addr <= x < r.allocs[o].End()
    requires o + 1 == k || o == k ==> r.allocs[o].addr + HEADER <= x
    ensures !Touched(r, k, a, x)
  {
    InsertApart(r, k, a, o);
    assert r.Insert(k, a).allocs[k] == a;
  }

  lemma PlaceOwnRep(m: Mem, m': Mem, r: Region, k: nat, a: Alloc, o: nat)
    requires r.Valid() && k <= |r.allocs| && r.Insert(k, a).Valid() && r.End() <= |m|
    requires o < |r.allocs| && AllocRep(m, r, o) && Linked(m, m', r, k, a)
    ensures AllocRep(m', r.Insert(k, a), if o < k then o else o + 1)
  {
    hide Word, MajorAt, MinorAt, Touched;
    var r', b, p := r.Insert(k, a), if o < k then o else o + 1, r.allocs[o];
    HeaderAfterInsert(r, k, a, o);
    var near := o + 1 == k || o == k;
    forall x | 0 <= x < |m| && (if near then p.addr + HEADER else p.addr) <= x < p.End() ensures m'[x] == m[x] {
      OwnUntouched(r, k, a, o, x);
    }
    HiddenByteFrame(m, m', p);
    if !near {
      HeaderFrame(m, m', p.addr);
    }
  }

  lemma PlaceNewRep(m: Mem, m': Mem, r: Region, k: nat, a: Alloc)
    requires k <= |r.allocs| && Linked(m, m', r, k, a)
    ensures |r.Insert(k, a).allocs| == |r.allocs| + 1 && AllocRep(m', r.Insert(k, a), k)
  {
    hide Word, MinorAt, MajorAt, Touched, MinorHeader, HiddenByte;
    assert r.Insert(k, a).allocs[k] == a;
  }

  lemma PlaceOwnAll(m: Mem, m': Mem, r: Region, k: nat, a: Alloc)
    requires r.Valid() && k <= |r.allocs| && r.Insert(k, a).Valid() && r.End() <= |m|
    requires forall o :: 0 <= o < |r.allocs| ==> AllocRep(m, r, o)
    requires Linked(m, m', r, k, a)
    ensures forall b :: 0 <= b < |r.Insert(k, a).allocs| ==> AllocRep(m', r.Insert(k, a), b)
  {
    hide *;
    PlaceNewRep(m, m', r, k, a);
    forall b | 0 <= b < |r.Insert(k, a).allocs| ensures AllocRep(m', r.Insert(k, a), b) {
      if b != k {
        PlaceOwnRep(m, m', r, k, a, if b < k then b else b - 1);
      }
    }
  }

  lemma PlaceConfined(m: Mem, m': Mem, r: Region, k: nat, a: Alloc)
    requires r.Valid() && k <= |r.allocs| && r.Insert(k, a).Valid() && Linked(m, m', r, k, a)
    ensures OnlyIn(m, m', r) && r.Insert(k, a).addr == r.addr
  {
    hide Word, MajorAt, MinorAt;
    assert r.Insert(k, a).allocs[k] == a;
  }

  lemma PlaceOwnMajor(m: Mem, m': Mem, l: Layout, j: nat, k: nat, a: Alloc)
    requires j < |l| && k <= |l[j].allocs| && RegionRep(m, l, j) && Linked(m, m', l[j], k, a)
    ensures RegionRep(m', l[j := l[j].Insert(k, a)], j)
  {
    hide Word, MajorAt, MinorAt, Touched;
    UsageInsert(l[j], k, a);
  }

  lemma PlaceRep(m: Mem, m': Mem, root: int, l: Layout, j: nat, k: nat, size: int, req: int)
    requires ValidLayout(l, |m|) && Rep(m, root, l) && j < |l| && k <= |l[j].allocs|
    requires l[j].Gap(k) >= size + HEADER && 0 <= req && req + ALIGNMENT + ALIGN_INFO <= size
    requires Linked(m, m', l[j], k, NewAlloc(l[j], k, size, req))
    ensures Rep(m', root, Place(l, j, k, size, req)) && OnlyIn(m, m', l[j])
  {
    hide Rep, AllocRep, RegionRep, Linked, Word, MajorAt, MinorAt, Region.Valid, Region.Insert, NewAlloc, Apart;
    var a := NewAlloc(l[j], k, size, req);
    InsertValid(l[j], k, size, req);
    RepElim(m, root, l);
    PlaceOwnAll(m, m', l[j], k, a);
    PlaceConfined(m, m', l[j], k, a);
    PlaceOwnMajor(m, m', l, j, k, a);
    UpdateRep(m, m', root, l, j, l[j].Insert(k, a));
  }
}
