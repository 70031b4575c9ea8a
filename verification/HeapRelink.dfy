/** The other header updates: unlinking a minor, dropping an empty major, appending a
    fresh one. Each lemma says which writes are enough. */
module HeapRelink {
  import opened Memory
  import opened HeapLayout
  import opened HeapSearch
  import opened HeapHeaders

  // ---------------------------------------------------------------- unlinking a minor

  /** The bytes unlinking allocation `k` of `r` may write. */
  ghost predicate Unhooked(r: Region, k: nat, x: int)
    requires k < |r.allocs|
  {
    || InHeader(r.addr, x)
    || (k > 0 && InHeader(r.allocs[k - 1].addr, x))
    || (k + 1 < |r.allocs| && InHeader(r.allocs[k + 1].addr, x))
    || InHeader(r.allocs[k].addr, x)
  }

  ghost predicate Unlinked(m: Mem, m': Mem, r: Region, k: nat)
    requires k < |r.allocs|
  {
    var h := MinorHeader(r, k);
    && |m'| == |m| && InMem(m, r.addr, HEADER)
    && (forall x :: 0 <= x < |m| && !Unhooked(r, k, x) ==> m'[x] == m[x])
    && (k > 0 ==>
          && InMem(m, r.allocs[k - 1].addr, HEADER)
          && MinorAt(m', r.allocs[k - 1].addr) == MinorAt(m, r.allocs[k - 1].addr).(next := h.next))
    && (k + 1 < |r.allocs| ==>
          && InMem(m, r.allocs[k + 1].addr, HEADER)
          && MinorAt(m', r.allocs[k + 1].addr) == MinorAt(m, r.allocs[k + 1].addr).(prev := h.prev))
    && MajorAt(m', r.addr) == MajorAt(m, r.addr).(usage := r.Usage() - r.allocs[k].size - HEADER,
                                                  first := if k == 0 then h.next else FirstAlloc(r))
  }

  /** Where allocation `o` ends up when `k` goes, and how its header has to change. */
  lemma HeaderAfterRemove(r: Region, k: nat, o: nat)
    requires k < |r.allocs| && o < |r.allocs| && o != k
    ensures var r', b := r.Remove(k), if o < k then o else o - 1;
            var h, g := MinorHeader(r, o), MinorHeader(r, k);
            && r'.allocs[b] == r.allocs[o]
            && MinorHeader(r', b) == (if o + 1 == k then h.(next := g.next)
                                      else if o == k + 1 then h.(prev := g.prev) else h)
  {
  }

  lemma RemoveUntouched(r: Region, k: nat, o: nat, x: int)
    requires r.Valid() && k < |r.allocs| && o < |r.allocs| && o != k
    requires r.allocs[o].addr <= x < r.allocs[o].End()
    requires o + 1 == k || o == k + 1 ==> r.allocs[o].addr + HEADER <= x
    ensures !Unhooked(r, k, x)
  {
  }

  lemma RemoveOwnRep(m: Mem, m': Mem, r: Region, k: nat, o: nat)
    requires r.Valid() && r.End() <= |m| && k < |r.allocs|
    requires o < |r.allocs| && o != k && AllocRep(m, r, o) && Unlinked(m, m', r, k)
    ensures AllocRep(m', r.Remove(k), if o < k then o else o - 1)
  {
    hide Word, MajorAt, MinorAt, Unhooked;
    var near, p := o + 1 == k || o == k + 1, r.allocs[o];
    HeaderAfterRemove(r, k, o);
    forall x | 0 <= x < |m| && (if near then p.addr + HEADER else p.addr) <= x < p.End() ensures m'[x] == m[x] {
      RemoveUntouched(r, k, o, x);
    }
    HiddenByteFrame(m, m', p);
    if !near {
      HeaderFrame(m, m', p.addr);
    }
  }

  lemma RemoveLength(r: Region, k: nat)
    requires k < |r.allocs|
    ensures |r.Remove(k).allocs| == |r.allocs| - 1 && r.Remove(k).addr == r.addr && r.Remove(k).pages == r.pages
    ensures r.Remove(k).Usage() == r.Usage() - r.allocs[k].size - HEADER
  {
    SizesInsert(r.Remove(k).allocs, k, r.allocs[k]);
    assert r.Remove(k).allocs[..k] + [r.allocs[k]] + r.Remove(k).allocs[k..] == r.allocs;
  }

  lemma RemoveOwnAll(m: Mem, m': Mem, r: Region, k: nat)
    requires r.Valid() && r.End() <= |m| && k < |r.allocs|
    requires forall o :: 0 <= o < |r.allocs| ==> AllocRep(m, r, o)
    requires Unlinked(m, m', r, k)
    ensures forall b :: 0 <= b < |r.Remove(k).allocs| ==> AllocRep(m', r.Remove(k), b)
  {
    hide *;
    RemoveLength(r, k);
    forall b | 0 <= b < |r.Remove(k).allocs| ensures AllocRep(m', r.Remove(k), b) {
      RemoveOwnRep(m, m', r, k, if b < k then b else b + 1);
    }
  }

  lemma RemoveOwnMajor(m: Mem, m': Mem, l: Layout, j: nat, k: nat)
    requires j < |l| && k < |l[j].allocs| && RegionRep(m, l, j) && Unlinked(m, m', l[j], k)
    ensures RegionRep(m', l[j := l[j].Remove(k)], j)
  {
    hide Word, MajorAt, MinorAt, Unhooked;
    RemoveLength(l[j], k);
  }

  lemma RemoveConfined(m: Mem, m': Mem, r: Region, k: nat)
    requires r.Valid() && k < |r.allocs| && Unlinked(m, m', r, k)
    ensures OnlyIn(m, m', r)
  {
    hide Word, MajorAt, MinorAt;
  }

  lemma RemoveRep(m: Mem, m': Mem, root: int, l: Layout, j: nat, k: nat)
    requires ValidLayout(l, |m|) && Rep(m, root, l) && j < |l| && k < |l[j].allocs|
    requires Unlinked(m, m', l[j], k)
    ensures Rep(m', root, l[j := l[j].Remove(k)])
  {
    hide Rep, AllocRep, RegionRep, Unlinked, Word, MajorAt, MinorAt, Region.Valid, Region.Remove, Apart;
    RepElim(m, root, l);
    RemoveLength(l[j], k);
    RemoveOwnAll(m, m', l[j], k);
    RemoveConfined(m, m', l[j], k);
    RemoveOwnMajor(m, m', l, j, k);
    UpdateRep(m, m', root, l, j, l[j].Remove(k));
  }

  // ---------------------------------------------------------------- majors come and go

  /** Every byte outside two headers stays; `a` or `b` may be 0 for none. */
  ghost predicate OnlyHeaders(m: Mem, m': Mem, a: int, b: int) {
    |m'| == |m| && forall x :: 0 <= x < |m| && !(a != 0 && InHeader(a, x)) && !(b != 0 && InHeader(b, x)) ==> m'[x] == m[x]
  }

  ghost predicate Dropped(m: Mem, m': Mem, l: Layout, j: nat)
    requires j < |l|
  {
    var h := MajorHeader(l, j);
    && OnlyHeaders(m, m', h.prev, h.next)
    && (j > 0 ==> InMem(m, h.prev, HEADER) && MajorAt(m', h.prev) == MajorAt(m, h.prev).(next := h.next))
    && (j + 1 < |l| ==> InMem(m, h.next, HEADER) && MajorAt(m', h.next) == MajorAt(m, h.next).(prev := h.prev))
  }

  lemma MajorAfterDrop(l: Layout, j: nat, o: nat)
    requires j < |l| && o < |l| && o != j
    ensures var l', b := Without(l, j), if o < j then o else o - 1;
            var h, g := MajorHeader(l, o), MajorHeader(l, j);
            && l'[b] == l[o]
            && MajorHeader(l', b) == (if o + 1 == j then h.(next := g.next)
                                      else if o == j + 1 then h.(prev := g.prev) else h)
  {
  }

  /** Headers of two majors do not overlap, nor does one overlap the other's body. */
  lemma MajorsApart(l: Layout, limit: int, i: nat, j: nat, x: int)
    requires ValidLayout(l, limit) && i < |l| && j < |l| && l[i].addr <= x < l[i].End()
    requires i != j || l[i].addr + HEADER <= x
    ensures !InHeader(l[j].addr, x)
  {
    if i != j {
      assert Apart(l[i], l[j]);
    }
  }

  lemma DropOneRep(m: Mem, m': Mem, l: Layout, j: nat, o: nat)
    requires ValidLayout(l, |m|) && j < |l| && o < |l| && o != j && RegionRep(m, l, o) && Dropped(m, m', l, j)
    requires forall k :: 0 <= k < |l[o].allocs| ==> AllocRep(m, l[o], k)
    ensures |Without(l, j)| == |l| - 1 && RegionRep(m', Without(l, j), if o < j then o else o - 1)
    ensures Without(l, j)[if o < j then o else o - 1] == l[o]
    ensures forall k :: 0 <= k < |l[o].allocs| ==> AllocRep(m', l[o], k)
  {
    hide Word, MajorAt, MinorAt, AllocRep, InHeader, Apart;
    MajorAfterDrop(l, j, o);
    var near := o + 1 == j || o == j + 1;
    forall x | 0 <= x < |m| && (if near then l[o].addr + HEADER else l[o].addr) <= x < l[o].End()
      ensures m'[x] == m[x]
    {
      if j > 0 {
        MajorsApart(l, |m|, o, j - 1, x);
      }
      if j + 1 < |l| {
        MajorsApart(l, |m|, o, j + 1, x);
      }
    }
    RegionFrame(m, m', l[o]);
    if !near {
      HeaderFrame(m, m', l[o].addr);
    }
  }

  lemma DropRoot(l: Layout, j: nat)
    requires j < |l|
    ensures |Without(l, j)| == |l| - 1
    ensures FirstRegion(Without(l, j)) == if j == 0 then MajorHeader(l, j).next else FirstRegion(l)
  {
  }

  lemma DropRep(m: Mem, m': Mem, root: int, l: Layout, j: nat)
    requires ValidLayout(l, |m|) && Rep(m, root, l) && j < |l| && Dropped(m, m', l, j)
    ensures Rep(m', if j == 0 then MajorHeader(l, j).next else root, Without(l, j))
  {
    hide *;
    RepElim(m, root, l);
    DropRoot(l, j);
    var l' := Without(l, j);
    forall i | 0 <= i < |l'|
      ensures RegionRep(m', l', i)
      ensures forall b :: 0 <= b < |l'[i].allocs| ==> AllocRep(m', l'[i], b)
    {
      DropOneRep(m, m', l, j, if i < j then i else i + 1);
    }
    RepIntro(m', if j == 0 then MajorHeader(l, j).next else root, l');
  }

  ghost predicate Appended(m: Mem, m': Mem, l: Layout, r: Region) {
    var last := if l == [] then 0 else l[|l| - 1].addr;
    && OnlyHeaders(m, m', last, r.addr)
    && InMem(m, r.addr, HEADER) && MajorAt(m', r.addr) == MajorHeader(l + [r], |l|)
    && (l != [] ==> InMem(m, last, HEADER) && MajorAt(m', last) == MajorAt(m, last).(next := r.addr))
  }

  lemma AppendOneRep(m: Mem, m': Mem, l: Layout, r: Region, o: nat)
    requires ValidLayout(l + [r], |m|) && o < |l| && RegionRep(m, l, o) && Appended(m, m', l, r)
    requires forall k :: 0 <= k < |l[o].allocs| ==> AllocRep(m, l[o], k)
    ensures RegionRep(m', l + [r], o)
    ensures forall k :: 0 <= k < |l[o].allocs| ==> AllocRep(m', l[o], k)
  {
    hide Word, MajorAt, MinorAt, AllocRep, InHeader, Apart;
    var l' := l + [r];
    assert l'[o] == l[o] && l'[|l|] == r && l'[|l| - 1] == l[|l| - 1];
    forall x | 0 <= x < |m| && (if o + 1 == |l| then l[o].addr + HEADER else l[o].addr) <= x < l[o].End()
      ensures m'[x] == m[x]
    {
      MajorsApart(l', |m|, o, |l| - 1, x);
      MajorsApart(l', |m|, o, |l|, x);
    }
    RegionFrame(m, m', l[o]);
    if o + 1 < |l| {
      HeaderFrame(m, m', l[o].addr);
    }
  }

  lemma AppendLast(m: Mem, m': Mem, l: Layout, r: Region)
    requires Appended(m, m', l, r) && r.addr != 0
    ensures RegionRep(m', l + [r], |l|) && (l + [r])[|l|] == r
    ensures FirstRegion(l + [r]) == if l == [] then r.addr else FirstRegion(l)
    ensures forall i :: 0 <= i < |l| ==> (l + [r])[i] == l[i]
  {
  }

  lemma AppendRep(m: Mem, m': Mem, root: int, l: Layout, r: Region)
    requires ValidLayout(l + [r], |m|) && Rep(m, root, l) && r.allocs == [] && r.addr != 0 && Appended(m, m', l, r)
    ensures Rep(m', if l == [] then r.addr else root, l + [r])
  {
    hide *;
    RepElim(m, root, l);
    AppendLast(m, m', l, r);
    var l' := l + [r];
    forall i | 0 <= i < |l'|
      ensures RegionRep(m', l', i)
      ensures forall b :: 0 <= b < |l'[i].allocs| ==> AllocRep(m', l'[i], b)
    {
      if i < |l| {
        AppendOneRep(m, m', l, r, i);
      }
    }
    RepIntro(m', if l == [] then r.addr else root, l');
  }
}
