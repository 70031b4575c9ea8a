/** Writes to a block's own bytes, and shrinking a block in place. */
module HeapWrites {
  import opened Memory
  import opened HeapLayout
  import opened HeapSearch
  import opened HeapHeaders
  import opened HeapFrames
  import opened HeapOutcome
  import opened HeapFree
  import opened HeapContents

  /** Only the caller's bytes of `a` changed. */
  ghost predicate OnlyBody(m: Mem, m': Mem, a: Alloc) {
    |m'| == |m| && forall x :: 0 <= x < |m| && !(a.UserPtr() <= x < a.UserPtr() + a.req) ==> m'[x] == m[x]
  }

  lemma BodyWriteMajor(m: Mem, m': Mem, l: Layout, j: nat, k: nat, i: nat)
    requires ValidLayout(l, |m|) && j < |l| && k < |l[j].allocs| && i < |l|
    requires OnlyBody(m, m', l[j].allocs[k]) && RegionRep(m, l, i)
    ensures RegionRep(m', l, i)
  {
    hide Word, MajorAt, MinorAt, MajorHeader;
    var p := l[j].allocs[k];
    AlignBounds(p);
    assert l[j].Valid() && l[i].Valid() && p.End() <= l[j].End();
    if i != j {
      assert Apart(l[i], l[j]);
    }
    HeaderFrame(m, m', l[i].addr);
  }

  lemma BodyWriteMinor(m: Mem, m': Mem, l: Layout, j: nat, k: nat, i: nat, b: nat)
    requires ValidLayout(l, |m|) && j < |l| && k < |l[j].allocs| && i < |l| && b < |l[i].allocs|
    requires OnlyBody(m, m', l[j].allocs[k]) && AllocRep(m, l[i], b)
    ensures AllocRep(m', l[i], b)
  {
    hide Word, MajorAt, MinorAt, MinorHeader, ValidLayout, Alloc.UserPtr;
    var p, q := l[j].allocs[k], l[i].allocs[b];
    Isolated(l, |m|, j, k, i, b);
    Isolated(l, |m|, i, b, j, k);
    AlignBounds(p);
    AlignBounds(q);
    HeaderFrame(m, m', q.addr);
  }

  /** A caller may write anything into its own bytes: the heap stays what it was. */
  lemma BodyWriteRep(m: Mem, m': Mem, root: int, l: Layout, j: nat, k: nat)
    requires ValidLayout(l, |m|) && Rep(m, root, l) && j < |l| && k < |l[j].allocs|
    requires OnlyBody(m, m', l[j].allocs[k])
    ensures Rep(m', root, l)
  {
    hide Word, ValidLayout, RegionRep, AllocRep, OnlyBody;
    forall i | 0 <= i < |l| ensures RegionRep(m', l, i) {
      BodyWriteMajor(m, m', l, j, k, i);
    }
    forall i, b | 0 <= i < |l| && 0 <= b < |l[i].allocs| ensures AllocRep(m', l[i], b) {
      BodyWriteMinor(m, m', l, j, k, i, b);
    }
  }

  lemma BodyWriteKeeps(m: Mem, m': Mem, l: Layout, p: int, x: int)
    requires ValidLayout(l, |m|) && Live(l, p) && OnlyBody(m, m', Block(l, p)) && Live(l, x) && x != p
    requires InBounds(l, m)
    ensures InBounds(l, m') && m'[x..x + Block(l, x).req] == m[x..x + Block(l, x).req]
  {
    hide ValidLayout, Alloc.UserPtr;
    var (j, k) := Locate(l, p);
    var (i, b) := Locate(l, x);
    Isolated(l, |m|, j, k, i, b);
    Isolated(l, |m|, i, b, j, k);
  }

  /** And no other caller sees a difference. */
  lemma BodyWriteView(m: Mem, m': Mem, l: Layout, p: int)
    requires ValidLayout(l, |m|) && Live(l, p) && OnlyBody(m, m', Block(l, p)) && InBounds(l, m)
    ensures InBounds(l, m') && View(l, m') == View(l, m)[p := m'[p..p + Block(l, p).req]]
  {
    hide ValidLayout, Alloc.UserPtr, View, Live, Block, InBounds, OnlyBody;
    SameBounds(l, m, m', Block(l, p));
    var v, v' := View(l, m), View(l, m');
    ViewAt(l, m', p);
    BoundsAt(l, m', p);
    var w := v[p := m'[p..p + Block(l, p).req]];
    forall x ensures (x in v' <==> x in w) && (x in v' ==> v'[x] == w[x]) {
      ViewKeys(l, m, x);
      ViewKeys(l, m', x);
      if Live(l, x) {
        ViewAt(l, m, x);
        ViewAt(l, m', x);
        if x != p {
          BodyWriteKeeps(m, m', l, p, x);
        }
      }
    }
    ViewKeys(l, m, p);
  }

  lemma SameBounds(l: Layout, m: Mem, m': Mem, a: Alloc)
    requires InBounds(l, m) && OnlyBody(m, m', a)
    ensures InBounds(l, m')
  {
  }

  // ---------------------------------------------------------------- shrinking in place

  function ResizedIn(r: Region, k: nat, req: int): Region
    requires k < |r.allocs|
  {
    r.(allocs := r.allocs[k := r.allocs[k].(req := req)])
  }

  function ResizedAt(l: Layout, j: nat, k: nat, req: int): Layout
    requires j < |l| && k < |l[j].allocs|
  {
    l[j := ResizedIn(l[j], k, req)]
  }

  ghost function Resized(l: Layout, p: int, req: int): Layout
    requires Live(l, p)
  {
    ResizedAt(l, Locate(l, p).0, Locate(l, p).1, req)
  }

  lemma {:induction false} SizesResize(s: seq<Alloc>, k: nat, req: int)
    requires k < |s|
    ensures Sizes(s[k := s[k].(req := req)]) == Sizes(s)
  {
    if k == 0 {
      assert s[0 := s[0].(req := req)][1..] == s[1..];
    } else {
      assert s[k := s[k].(req := req)][1..] == s[1..][k - 1 := s[1..][k - 1].(req := req)];
      SizesResize(s[1..], k - 1, req);
    }
  }

  lemma ResizeValid(r: Region, k: nat, req: int)
    requires r.Valid() && k < |r.allocs| && 0 <= req <= r.allocs[k].req
    ensures ResizedIn(r, k, req).Valid()
  {
  }

  lemma ResizeLayout(l: Layout, limit: int, j: nat, k: nat, req: int)
    requires ValidLayout(l, limit) && j < |l| && k < |l[j].allocs| && 0 <= req <= l[j].allocs[k].req
    ensures var l' := ResizedAt(l, j, k, req);
            && ValidLayout(l', limit) && InUse(l') == InUse(l) && Allocated(l') == Allocated(l)
            && (NoneEmpty(l) ==> NoneEmpty(l')) && |l'| == |l|
            && forall addr :: IndexOf(l', addr) == IndexOf(l, addr)
  {
    hide Region.Valid, ValidLayout, IndexOf;
    ValidRegion(l, limit, j);
    ResizeValid(l[j], k, req);
    UpdateValid(l, limit, j, ResizedIn(l[j], k, req));
    InUseUpdate(l, j, ResizedIn(l[j], k, req));
    SizesResize(l[j].allocs, k, req);
    forall addr {
      SameAddresses(l, ResizedAt(l, j, k, req), addr);
    }
  }

  lemma ResizeOwn(m: Mem, m': Mem, r: Region, k: nat, req: int, b: nat)
    requires r.Valid() && r.End() <= |m| && k < |r.allocs| && b < |r.allocs| && |m'| == |m|
    requires AllocRep(m, r, k) && AllocRep(m, r, b)
    requires MinorAt(m', r.allocs[k].addr) == MinorAt(m, r.allocs[k].addr).(req := req)
    requires forall x :: 0 <= x < |m| && !InHeader(r.allocs[k].addr, x) ==> m'[x] == m[x]
    ensures AllocRep(m', ResizedIn(r, k, req), b)
  {
    hide Word, MajorAt, MinorAt;
    var r' := ResizedIn(r, k, req);
    assert r'.allocs[b].addr == r.allocs[b].addr;
    AlignBounds(r.allocs[b]);
    if b != k {
      HeaderFrame(m, m', r.allocs[b].addr);
    }
  }

  lemma ResizeOwnMajor(m: Mem, m': Mem, l: Layout, j: nat, k: nat, req: int)
    requires ValidLayout(l, |m|) && j < |l| && k < |l[j].allocs| && RegionRep(m, l, j) && |m'| == |m|
    requires forall x :: 0 <= x < |m| && !InHeader(l[j].allocs[k].addr, x) ==> m'[x] == m[x]
    ensures RegionRep(m', ResizedAt(l, j, k, req), j) && OnlyIn(m, m', l[j])
  {
    hide Word, MajorAt, MinorAt;
    SizesResize(l[j].allocs, k, req);
    HeaderFrame(m, m', l[j].addr);
  }

  lemma ResizeRep(m: Mem, m': Mem, root: int, l: Layout, j: nat, k: nat, req: int)
    requires ValidLayout(l, |m|) && Rep(m, root, l) && j < |l| && k < |l[j].allocs| && |m'| == |m|
    requires InMem(m, l[j].allocs[k].addr, HEADER)
          && MinorAt(m', l[j].allocs[k].addr) == MinorAt(m, l[j].allocs[k].addr).(req := req)
    requires forall x :: 0 <= x < |m| && !InHeader(l[j].allocs[k].addr, x) ==> m'[x] == m[x]
    ensures Rep(m', root, ResizedAt(l, j, k, req))
  {
    hide Word, MajorAt, MinorAt, ValidLayout, Rep, RegionRep, AllocRep, OnlyIn, Region.Valid;
    RepElim(m, root, l);
    ValidRegion(l, |m|, j);
    ResizeOwnMajor(m, m', l, j, k, req);
    forall b | 0 <= b < |l[j].allocs| ensures AllocRep(m', ResizedIn(l[j], k, req), b) {
      ResizeOwn(m, m', l[j], k, req, b);
    }
    UpdateRep(m, m', root, l, j, ResizedIn(l[j], k, req));
  }

  /** A shrunk block shows a prefix of what it showed; nothing else changes. */
  lemma ResizeView(m: Mem, m': Mem, l: Layout, p: int, req: int)
    requires ValidLayout(l, |m|) && Live(l, p) && 0 <= req <= Block(l, p).req && |m'| == |m|
    requires ValidLayout(Resized(l, p, req), |m|) && InBounds(l, m) && InBounds(Resized(l, p, req), m')
    requires forall x :: 0 <= x < |m| && !InHeader(Block(l, p).addr, x) ==> m'[x] == m[x]
    ensures p in View(l, m) && View(Resized(l, p, req), m') == View(l, m)[p := m[p..p + req]]
  {
    hide ValidLayout, Alloc.UserPtr, View, Live, InBounds, Resized;
    var l' := Resized(l, p, req);
    var v, v' := View(l, m), View(l', m');
    ViewKeys(l, m, p);
    BoundsAt(l, m, p);
    var w := v[p := m[p..p + req]];
    forall x ensures (x in v' <==> x in w) && (x in v' ==> v'[x] == w[x]) {
      ViewKeys(l, m, x);
      ViewKeys(l', m', x);
      ResizeLive(l, |m|, p, req, x);
      if Live(l, x) {
        ViewAt(l, m, x);
        ViewAt(l', m', x);
        BoundsAt(l, m, x);
        BodyNotHeader(l, m, m', p, x);
      }
    }
  }

  lemma BodyNotHeader(l: Layout, m: Mem, m': Mem, p: int, x: int)
    requires ValidLayout(l, |m|) && Live(l, p) && Live(l, x) && |m'| == |m|
    requires forall i :: 0 <= i < |m| && !InHeader(Block(l, p).addr, i) ==> m'[i] == m[i]
    ensures forall i :: 0 <= i < |m| && x <= i < x + Block(l, x).req ==> m'[i] == m[i]
  {
    hide ValidLayout, Alloc.UserPtr;
    var (j, k) := Locate(l, p);
    var (i, b) := Locate(l, x);
    Isolated(l, |m|, j, k, i, b);
    Isolated(l, |m|, i, b, j, k);
  }

  lemma ResizeLive(l: Layout, limit: int, p: int, req: int, x: int)
    requires ValidLayout(l, limit) && Live(l, p) && ValidLayout(Resized(l, p, req), limit)
    ensures Live(Resized(l, p, req), x) <==> Live(l, x)
    ensures Live(l, x) ==>
              Block(Resized(l, p, req), x) == (if x == p then Block(l, x).(req := req) else Block(l, x))
  {
    hide ValidLayout;
    var l' := Resized(l, p, req);
    if Live(l, x) {
      var (i, b) := Locate(l, x);
      assert l'[i].allocs[b].UserPtr() == x;
      At(l', limit, i, b, l'[i].allocs[b]);
    }
    if j, k :| 0 <= j < |l'| && 0 <= k < |l'[j].allocs| && l'[j].allocs[k].UserPtr() == x {
      assert l[j].allocs[k].UserPtr() == x;
    }
  }

  lemma BlockIs(l: Layout, p: int)
    requires Live(l, p)
    ensures l[Locate(l, p).0].allocs[Locate(l, p).1] == Block(l, p)
  {
  }

  // ---------------------------------------------------------------- copying

  lemma WordCopied(m: Mem, m': Mem, s: int, d: int)
    requires |m'| == |m| && InMem(m, s, 4) && InMem(m, d, 4) && Word(m', d) == Word(m, s)
    ensures m'[d..d + 4] == m[s..s + 4]
  {
    WordSame(m', m, d, s);
  }

  /** The first `n` bytes at `dst` are those that were at `src`; nothing else changed. */
  ghost predicate Copied(m: Mem, m': Mem, dst: int, src: int, n: nat) {
    && |m'| == |m| && InMem(m, dst, n) && InMem(m, src, n)
    && (forall x :: 0 <= x < |m| && !(dst <= x < dst + n) ==> m'[x] == m[x])
    && m'[dst..dst + n] == m[src..src + n]
  }

  lemma CopyBegins(m: Mem, dst: int, src: int)
    requires 0 <= dst <= |m| && 0 <= src <= |m|
    ensures Copied(m, m, dst, src, 0)
  {
  }

  /** One more piece of `n` bytes was copied. */
  lemma CopyExtends(m0: Mem, m: Mem, m': Mem, dst: int, src: int, done: nat, n: nat)
    requires Copied(m0, m, dst, src, done) && |m'| == |m| && InMem(m0, dst, done + n) && InMem(m0, src, done + n)
    requires dst + done + n <= src || src + done + n <= dst
    requires forall x :: 0 <= x < |m| && !(dst + done <= x < dst + done + n) ==> m'[x] == m[x]
    requires m'[dst + done..dst + done + n] == m[src + done..src + done + n]
    ensures |m'| == |m0| && Copied(m0, m', dst, src, done + n)
  {
    var d, s := dst + done, src + done;
    assert m'[dst..d] == m[dst..d];
    assert m[s..s + n] == m0[s..s + n];
    assert m'[dst..d + n] == m'[dst..d] + m'[d..d + n];
    assert m0[src..s + n] == m0[src..s] + m0[s..s + n];
  }

  lemma BlockInMem(l: Layout, m: Mem, p: int)
    requires ValidLayout(l, |m|) && Live(l, p)
    ensures InMem(m, Block(l, p).addr, HEADER) && Block(l, p).addr + HEADER < p
    ensures 0 <= Block(l, p).req < |m| && p + Block(l, p).req <= Block(l, p).End() <= |m|
  {
    BlockIs(l, p);
    AlignBounds(Block(l, p));
  }

  lemma MallocNull(l: Layout, m: Mem, l': Layout, m': Mem, start: nat, size: int, req: int, run: int, p: int)
    requires start <= |l| && 0 <= size && MallocOutcome(l, m, l', m', start, size, req, run, p)
    ensures p == 0 <==> Target(l, size + HEADER, start) == |l| && run == 0
    ensures p == 0 ==> l' == l && m' == m
  {
    hide KeepsUsers, Confined, Cleared, Place, Fit;
  }

  /** Two live blocks do not overlap. */
  lemma TwoBlocks(l: Layout, m: Mem, p: int, q: int)
    requires ValidLayout(l, |m|) && Live(l, p) && Live(l, q) && p != q
    ensures InMem(m, p, Block(l, p).req) && InMem(m, q, Block(l, q).req)
    ensures p + Block(l, p).req <= q || q + Block(l, q).req <= p
  {
    hide ValidLayout, Alloc.UserPtr;
    var (j, k) := Locate(l, p);
    var (i, b) := Locate(l, q);
    Isolated(l, |m|, j, k, i, b);
    Isolated(l, |m|, i, b, j, k);
    ValidInBounds(l, m);
  }

  /** Copying `n` bytes of block `p` to the start of block `q`. */
  lemma CopiedBody(m: Mem, m': Mem, l: Layout, root: int, q: int, p: int, n: nat)
    requires ValidLayout(l, |m|) && Rep(m, root, l) && InBounds(l, m)
    requires Live(l, p) && Live(l, q) && p != q && n == Block(l, p).req && n <= Block(l, q).req
    requires Copied(m, m', q, p, n)
    ensures |m'| == |m| && Rep(m', root, l) && InBounds(l, m') && OnlyBody(m, m', Block(l, q))
    ensures q in View(l, m') && |View(l, m')[q]| == Block(l, q).req && View(l, m')[q][..n] == View(l, m)[p]
    ensures p in View(l, m) && View(l, m') == View(l, m)[q := View(l, m')[q]]
  {
    hide ValidLayout, Alloc.UserPtr, Rep, View, Live;
    var (i, b) := Locate(l, q);
    BlockIs(l, q);
    BodyWriteRep(m, m', root, l, i, b);
    BodyWriteView(m, m', l, q);
    ViewAt(l, m', q);
    ViewAt(l, m, p);
    assert m'[q..q + n] == m'[q..q + Block(l, q).req][..n];
  }

  lemma NullNotLive(l: Layout, limit: int)
    requires ValidLayout(l, limit)
    ensures !Live(l, 0)
  {
    if Live(l, 0) {
      var (j, k) := Locate(l, 0);
      AlignBounds(l[j].allocs[k]);
    }
  }

  lemma LiveReq(l: Layout, p: int)
    requires Live(l, p)
    ensures MinorHeader(l[Locate(l, p).0], Locate(l, p).1).req == Block(l, p).req
    ensures MinorHeader(l[Locate(l, p).0], Locate(l, p).1).magic == MAGIC
  {
  }

  lemma FreedNotLive(l: Layout, limit: int, l': Layout, p: int)
    requires ValidLayout(l, limit) && ValidLayout(l', limit) && Live(l, p) && l' == Freed(l, p)
    ensures !Live(l', p)
  {
    hide ValidLayout, Alloc.UserPtr, Live, Freed;
    ReleaseRemoves(l, limit, p);
  }

  lemma RootIs(m: Mem, root: int, l: Layout)
    requires Rep(m, root, l)
    ensures root == FirstRegion(l)
  {
  }

  lemma AddThenTake(v: Contents, p: int, data: seq<Byte>)
    requires p !in v
    ensures v[p := data] - {p} == v
  {
  }
}
