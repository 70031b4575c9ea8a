/** Giving the pages of an emptied major back: liballoc_free calls mm_free_pages, which walks downwards from
    the major and hands the addresses it meets to free_frame, as if they were page table entries. Each of
    these words either stops the kernel or loses its upper 20 bits. */
module HeapRelease {
  import opened Memory
  import opened HeapLayout
  import opened HeapSearch
  import opened HeapHeaders
  import opened HeapFrames
  import opened HeapFree
  import opened HeapOutcome
  import opened HeapContents
  import opened HeapWrites

  /** Which pages are present; page 0 never is. */
  type Pages = int -> bool

  /** The kernel stops, or goes on with memory `m` and the bits of `frames` cleared in the bitmap. */
  datatype Given = Halts | Given(m: Mem, frames: seq<nat>)

  /** free_frame can be called on the word at `z`: its page is present, and the frame field is not 0. */
  predicate Heavy(m: Mem, here: Pages, z: int) {
    PAGE <= z && InMem(m, z, 4) && here(z / PAGE) && Word(m, z) >= 0x1000
  }

  /** mm_free_pages on `n` pages, from address `a` downwards. */
  function GiveBack(m: Mem, here: Pages, a: int, n: nat): Given
    decreases n
  {
    var z := a - PAGE;
    if n == 0 then Given(m, [])
    else if !Heavy(m, here, z) then Halts
    else
      match GiveBack(PutWord(m, z, Word(m, z) % 0x1000), here, z, n - 1)
      case Halts => Halts
      case Given(m', frames) => Given(m', [Word(m, z) / 0x1000] + frames)
  }

  // ---------------------------------------------------------------- in closed form

  /** What becomes of a byte at offset `o` of a page. */
  function MaskByte(o: int, b: Byte): Byte {
    if o == 1 then b % 16 else if o == 2 || o == 3 then 0 else b
  }

  function Masked(m: Mem, a: int, n: nat, x: int): Byte
    requires 0 <= x < |m|
  {
    if a - n * PAGE <= x < a then MaskByte(x % PAGE, m[x]) else m[x]
  }

  lemma MaskWord(m: Mem, z: int)
    requires InMem(m, z, 4)
    ensures var m' := PutWord(m, z, Word(m, z) % 0x1000);
            && m'[z] == m[z] && m'[z + 1] == m[z + 1] % 16 && m'[z + 2] == 0 && m'[z + 3] == 0
    ensures Word(m, z) >= 0x1000 <==> m[z + 1] >= 16 || m[z + 2] > 0 || m[z + 3] > 0
  {
    var b, c, w := m[z] as int, m[z + 1] as int, Word(m, z);
    var high := m[z + 2] as int + 0x100 * m[z + 3] as int;
    assert w == b + 0x100 * c + 0x1_0000 * high;
    assert w % 0x1000 == b + 0x100 * (c % 16) by {
      assert c == 16 * (c / 16) + c % 16;
      assert w == 0x1000 * (c / 16 + 16 * high) + b + 0x100 * (c % 16);
    }
    var m' := PutWord(m, z, w % 0x1000);
    WordDigits(m', z);
  }

  predicate AllHeavy(m: Mem, here: Pages, a: int, n: nat) {
    forall i: nat | i < n :: Heavy(m, here, Boundary(a, i))
  }

  /** The `i`th word mm_free_pages meets. */
  function Boundary(a: int, i: nat): int { a - PAGE - i * PAGE }

  ghost predicate FramesMet(m: Mem, a: int, frames: seq<nat>) {
    forall i: nat | i < |frames| :: InMem(m, Boundary(a, i), 4) && frames[i] == Word(m, Boundary(a, i)) / 0x1000
  }

  lemma OneMasked(m: Mem, here: Pages, a: int, n: nat)
    requires a % PAGE == 0 && 0 < n && Heavy(m, here, a - PAGE) && a <= |m|
    ensures var z := a - PAGE;
            var m1 := PutWord(m, z, Word(m, z) % 0x1000);
            && |m1| == |m| && (forall x :: 0 <= x < |m| ==> Masked(m1, z, n - 1, x) == Masked(m, a, n, x))
            && forall b :: InMem(m, b, 4) && b + 4 <= z ==> Word(m1, b) == Word(m, b)
  {
    hide Word, PutWord;
    var z := a - PAGE;
    MaskWord(m, z);
    var m1 := PutWord(m, z, Word(m, z) % 0x1000);
    forall x | 0 <= x < |m| ensures Masked(m1, z, n - 1, x) == Masked(m, a, n, x) {
      if z <= x < a {
        assert x % PAGE == x - z;
      }
    }
  }

  lemma HeavyStep(m: Mem, m1: Mem, here: Pages, a: int, z: int, n: nat)
    requires 0 < n && z == a - PAGE && |m1| == |m|
    requires forall b :: InMem(m, b, 4) && b + 4 <= z ==> Word(m1, b) == Word(m, b)
    ensures AllHeavy(m, here, a, n) <==> Heavy(m, here, z) && AllHeavy(m1, here, z, n - 1)
  {
    hide Word;
    assert Boundary(a, 0) == z;
    forall i: nat | 0 < i < n ensures Heavy(m, here, Boundary(a, i)) <==> Heavy(m1, here, Boundary(z, i - 1)) {
      assert Boundary(a, i) == Boundary(z, i - 1);
    }
    if AllHeavy(m, here, a, n) {
      forall i: nat | i < n - 1 ensures Heavy(m1, here, Boundary(z, i)) {
        assert Heavy(m, here, Boundary(a, i + 1));
      }
    }
  }

  lemma FramesStep(m: Mem, m1: Mem, a: int, z: int, frames: seq<nat>)
    requires z == a - PAGE && |m1| == |m| && InMem(m, z, 4) && FramesMet(m1, z, frames)
    requires forall b :: InMem(m, b, 4) && b + 4 <= z ==> Word(m1, b) == Word(m, b)
    ensures FramesMet(m, a, [Word(m, z) / 0x1000] + frames)
  {
    hide Word;
    var fs := [Word(m, z) / 0x1000] + frames;
    assert Boundary(a, 0) == z;
    forall i: nat | 0 < i < |fs|
      ensures InMem(m, Boundary(a, i), 4) && fs[i] == Word(m, Boundary(a, i)) / 0x1000
    {
      assert Boundary(a, i) == Boundary(z, i - 1);
    }
  }

  /** The pages are given back exactly when every word met is heavy, and then exactly the upper bits of
      these words are gone; the frames are the numbers found there. */
  lemma {:induction false} GiveBackIs(m: Mem, here: Pages, a: int, n: nat)
    requires a % PAGE == 0 && 0 <= a <= |m|
    ensures GiveBack(m, here, a, n).Given? <==> AllHeavy(m, here, a, n)
    ensures GiveBack(m, here, a, n).Given? ==>
              var g := GiveBack(m, here, a, n);
              && |g.m| == |m| && (forall x :: 0 <= x < |m| ==> g.m[x] == Masked(m, a, n, x))
              && |g.frames| == n && FramesMet(m, a, g.frames)
    decreases n
  {
    hide Word, PutWord, Masked, AllHeavy, FramesMet;
    var z := a - PAGE;
    if n == 0 {
      NoneMet(m, here, a);
    } else if Heavy(m, here, z) {
      var m1 := PutWord(m, z, Word(m, z) % 0x1000);
      OneMasked(m, here, a, n);
      HeavyStep(m, m1, here, a, z, n);
      GiveBackIs(m1, here, z, n - 1);
      var rest := GiveBack(m1, here, z, n - 1);
      if rest.Given? {
        FramesStep(m, m1, a, z, rest.frames);
      }
    } else {
      HeavyStep(m, m, here, a, z, n);
    }
  }

  lemma NoneMet(m: Mem, here: Pages, a: int)
    ensures AllHeavy(m, here, a, 0) && FramesMet(m, a, []) && forall x :: 0 <= x < |m| ==> Masked(m, a, 0, x) == m[x]
  {
  }

  /** In terms of words: nothing is given back unless each of them is at least 0x1000 and in a page that is
      present; then exactly their upper 20 bits are gone, and these name the frames. */
  lemma GiveBackWords(m: Mem, here: Pages, a: int, n: nat)
    requires a % PAGE == 0 && 0 <= a <= |m|
    ensures GiveBack(m, here, a, n).Given? <==>
            forall i: nat :: i < n ==>
              var z := Boundary(a, i); z == a - 4096 - i * 4096 && 4096 <= z && here(z / 4096) && Word(m, z) >= 0x1000
    ensures GiveBack(m, here, a, n).Given? ==>
              var g := GiveBack(m, here, a, n);
              && |g.m| == |m| && |g.frames| == n
              && forall i: nat :: i < n ==>
                   var z := Boundary(a, i);
                   && 0 <= z && z + 4 <= |m| && Word(g.m, z) == Word(m, z) % 0x1000
                   && g.frames[i] == Word(m, z) / 0x1000
    ensures GiveBack(m, here, a, n).Given? ==>
              forall x :: 0 <= x < |m| && (x < a - n * 4096 || a <= x || x % 4096 >= 4) ==> GiveBack(m, here, a, n).m[x] == m[x]
  {
    hide Word, GiveBack;
    GiveBackIs(m, here, a, n);
    var g := GiveBack(m, here, a, n);
    forall i: nat | i < n
      ensures Boundary(a, i) == a - 4096 - i * 4096 && (Heavy(m, here, Boundary(a, i)) && g.Given? ==>
                Word(g.m, Boundary(a, i)) == Word(m, Boundary(a, i)) % 0x1000)
    {
      if Heavy(m, here, Boundary(a, i)) && g.Given? {
        MaskedWord(m, g.m, Boundary(a, i));
      }
    }
  }

  lemma MaskedWord(m: Mem, m': Mem, z: int)
    requires z % PAGE == 0 && InMem(m, z, 4) && |m'| == |m| && forall x :: z <= x < z + 4 ==> m'[x] == MaskByte(x % PAGE, m[x])
    ensures Word(m', z) == Word(m, z) % 0x1000
  {
    hide MaskByte;
    assert (z + 1) % PAGE == 1 && (z + 2) % PAGE == 2 && (z + 3) % PAGE == 3;
    MaskBytes(m[z], m[z + 1], m[z + 2], m[z + 3]);
  }

  lemma MaskBytes(a: Byte, b: Byte, c: Byte, d: Byte)
    ensures MaskByte(0, a) == a && MaskByte(2, c) == 0 && MaskByte(3, d) == 0 && MaskByte(1, b) == b % 16
    ensures (a + 0x100 * b + 0x1_0000 * c + 0x100_0000 * d) % 0x1000 == a + 0x100 * (b % 16)
  {
    assert b == 16 * (b / 16) + b % 16;
    assert a + 0x100 * b + 0x1_0000 * c + 0x100_0000 * d
        == a + 0x100 * (b % 16) + 0x1000 * (b / 16 + 16 * c + 0x1000 * d);
  }

  // ---------------------------------------------------------------- what must not change

  /** Byte `x` is part of a header, a hidden byte, or a caller's. */
  ghost predicate ProtectedBy(q: Alloc, x: int) {
    InHeader(q.addr, x) || x == q.UserPtr() - ALIGN_INFO || q.UserPtr() <= x < q.UserPtr() + q.req
  }

  ghost predicate Protected(l: Layout, x: int) {
    || InMajorHeader(l, x)
    || exists i, b :: 0 <= i < |l| && 0 <= b < |l[i].allocs| && ProtectedBy(l[i].allocs[b], x)
  }

  ghost predicate SparedByte(l: Layout, m: Mem, x: int, o: int) {
    0 <= x < |m| && Protected(l, x) ==> MaskByte(o, m[x]) == m[x]
  }

  /** The upper bits of the word at `z` can go: those of its bytes that matter are 0 there already. */
  ghost predicate Spared(l: Layout, m: Mem, z: int) {
    SparedByte(l, m, z + 1, 1) && SparedByte(l, m, z + 2, 2) && SparedByte(l, m, z + 3, 3)
  }

  /** Giving back `n` pages from `a` on neither stops the kernel nor touches a byte that matters. */
  ghost predicate Quiet(l: Layout, m: Mem, here: Pages, a: int, n: nat) {
    AllHeavy(m, here, a, n) && forall i: nat :: i < n ==> Spared(l, m, Boundary(a, i))
  }

  /** The bytes that matter are the same. */
  ghost predicate SameProtected(l: Layout, m: Mem, m': Mem) {
    |m'| == |m| && forall x :: 0 <= x < |m| && Protected(l, x) ==> m'[x] == m[x]
  }

  lemma BoundaryOf(a: int, n: nat, x: int) returns (i: nat)
    requires a % PAGE == 0 && a - n * PAGE <= x < a
    ensures i < n && Boundary(a, i) + x % PAGE == x
  {
    i := (a - 1 - x) / PAGE;
    var z := Boundary(a, i);
    assert z % PAGE == 0 && 0 <= x - z < PAGE;
  }

  lemma BoundaryByte(a: int, n: nat, i: nat, o: int)
    requires a % PAGE == 0 && i < n && 0 <= o < PAGE
    ensures var x := Boundary(a, i) + o; a - n * PAGE <= x < a && x % PAGE == o
  {
  }

  /** When all words are heavy, the bytes that matter stay the same exactly when all words are spared. */
  lemma SparedIsSame(l: Layout, m: Mem, a: int, n: nat, m': Mem)
    requires a % PAGE == 0 && 0 <= a <= |m| && |m'| == |m| && forall x :: 0 <= x < |m| ==> m'[x] == Masked(m, a, n, x)
    ensures (forall i: nat :: i < n ==> Spared(l, m, Boundary(a, i))) <==> SameProtected(l, m, m')
  {
    hide Protected, Boundary;
    if forall i: nat :: i < n ==> Spared(l, m, Boundary(a, i)) {
      forall x | 0 <= x < |m| && Protected(l, x) ensures m'[x] == m[x] {
        if a - n * PAGE <= x < a {
          var i := BoundaryOf(a, n, x);
          assert Spared(l, m, Boundary(a, i));
          var o := x % PAGE;
          if 1 <= o <= 3 {
            assert SparedByte(l, m, Boundary(a, i) + o, o);
          }
        }
      }
    }
    if SameProtected(l, m, m') {
      forall i: nat | i < n ensures Spared(l, m, Boundary(a, i)) {
        BoundaryByte(a, n, i, 1);
        BoundaryByte(a, n, i, 2);
        BoundaryByte(a, n, i, 3);
      }
    }
  }

  // ---------------------------------------------------------------- what depends on these bytes

  lemma AllocSame(l: Layout, m: Mem, m': Mem, i: nat, b: nat)
    requires SameProtected(l, m, m') && ValidLayout(l, |m|) && i < |l| && b < |l[i].allocs|
    ensures AllocRep(m, l[i], b) <==> AllocRep(m', l[i], b)
    ensures Kept(m, m', l[i].allocs[b])
  {
    hide Word, ValidLayout, Alloc.UserPtr, MinorHeader, Alloc.End;
    var q := l[i].allocs[b];
    Isolated(l, |m|, i, b, i, b);
    assert forall x :: ProtectedBy(q, x) ==> Protected(l, x);
    HeaderBytes(m, m', q.addr);
  }

  lemma HeaderBytes(m: Mem, m': Mem, h: int)
    requires |m'| == |m| && forall x :: 0 <= x < |m| && InHeader(h, x) ==> m'[x] == m[x]
    ensures InMem(m, h, HEADER) ==> MinorAt(m', h) == MinorAt(m, h) && MajorAt(m', h) == MajorAt(m, h)
  {
    if InMem(m, h, HEADER) {
      HeaderFrame(m, m', h);
    }
  }

  lemma MajorSame(l: Layout, m: Mem, m': Mem, i: nat)
    requires SameProtected(l, m, m') && i < |l|
    ensures RegionRep(m, l, i) <==> RegionRep(m', l, i)
  {
    hide Word, MajorHeader;
    assert forall x :: InHeader(l[i].addr, x) ==> InMajorHeader(l, x);
    HeaderBytes(m, m', l[i].addr);
  }

  /** The lists in memory and everything callers see are the same. */
  lemma SameKeeps(l: Layout, m: Mem, m': Mem, root: int)
    requires SameProtected(l, m, m') && ValidLayout(l, |m|)
    ensures Rep(m, root, l) ==> Rep(m', root, l)
    ensures KeepsUsers(m, m', l) && InBounds(l, m) && InBounds(l, m') && View(l, m') == View(l, m)
  {
    hide Word, ValidLayout, AllocRep, RegionRep, Protected, View, Kept, SameProtected, FirstRegion;
    ValidInBounds(l, m);
    SameLength(l, m, m');
    ValidInBounds(l, m');
    forall i, b | 0 <= i < |l| && 0 <= b < |l[i].allocs|
      ensures (AllocRep(m, l[i], b) <==> AllocRep(m', l[i], b)) && Kept(m, m', l[i].allocs[b])
    {
      AllocSame(l, m, m', i, b);
    }
    forall i | 0 <= i < |l| ensures RegionRep(m, l, i) <==> RegionRep(m', l, i) {
      MajorSame(l, m, m', i);
    }
    SameView(l, m, m');
  }

  lemma SameLength(l: Layout, m: Mem, m': Mem)
    requires SameProtected(l, m, m')
    ensures |m'| == |m|
  {
  }

  lemma SameView(l: Layout, m: Mem, m': Mem)
    requires ValidLayout(l, |m|) && KeepsUsers(m, m', l) && InBounds(l, m) && InBounds(l, m')
    ensures View(l, m') == View(l, m)
  {
    hide ValidLayout, View, KeepsUsers, InBounds, Live;
    var v, v' := View(l, m), View(l, m');
    forall p ensures (p in v' <==> p in v) && (p in v' ==> v'[p] == v[p]) {
      ViewKeys(l, m, p);
      ViewKeys(l, m', p);
      if Live(l, p) {
        KeptView(l, m, m', p);
        ViewAt(l, m, p);
        ViewAt(l, m', p);
      }
    }
  }

  lemma HeaderWords(m: Mem, m': Mem, h: int, x: int)
    requires InMem(m, h, HEADER) && |m'| == |m| && InHeader(h, x)
    requires MajorAt(m', h) == MajorAt(m, h) || MinorAt(m', h) == MinorAt(m, h)
    ensures m'[x] == m[x]
  {
    hide Word;
    var w := h + (x - h) / 4 * 4;
    assert Word(m', w) == Word(m, w) by {
      assert w == h || w == h + 4 || w == h + 8 || w == h + 12 || w == h + 16 || w == h + 20;
    }
    WordSame(m', m, w, w);
    assert m'[w..w + 4][x - w] == m[w..w + 4][x - w];
  }

  /** And if they are, so are the bytes: memory represents the layout and shows the callers' bytes in one
      way only. */
  lemma OnlySame(l: Layout, m: Mem, m': Mem, root: int)
    requires ValidLayout(l, |m|) && |m'| == |m| && Rep(m, root, l) && Rep(m', root, l)
    requires InBounds(l, m) && InBounds(l, m') && View(l, m') == View(l, m)
    ensures SameProtected(l, m, m')
  {
    hide Word, ValidLayout, MajorAt, MinorAt, Alloc.UserPtr, MajorHeader, MinorHeader, View, InBounds;
    forall x | 0 <= x < |m| && Protected(l, x) ensures m'[x] == m[x] {
      if i :| 0 <= i < |l| && InHeader(l[i].addr, x) {
        assert RegionRep(m, l, i) && RegionRep(m', l, i);
        HeaderWords(m, m', l[i].addr, x);
      } else {
        var i, b :| 0 <= i < |l| && 0 <= b < |l[i].allocs| && ProtectedBy(l[i].allocs[b], x);
        assert AllocRep(m, l[i], b) && AllocRep(m', l[i], b);
        OnlySameAlloc(l, m, m', i, b, x);
      }
    }
  }

  lemma OnlySameAlloc(l: Layout, m: Mem, m': Mem, i: nat, b: nat, x: int)
    requires ValidLayout(l, |m|) && |m'| == |m| && i < |l| && b < |l[i].allocs| && 0 <= x < |m|
    requires AllocRep(m, l[i], b) && AllocRep(m', l[i], b) && ProtectedBy(l[i].allocs[b], x)
    requires InBounds(l, m) && InBounds(l, m') && View(l, m') == View(l, m)
    ensures m'[x] == m[x]
  {
    hide Word, ValidLayout, MajorAt, MinorAt, Alloc.UserPtr, MinorHeader, View, InBounds, Live;
    var q := l[i].allocs[b];
    if InHeader(q.addr, x) {
      HeaderWords(m, m', q.addr, x);
    } else if x != q.UserPtr() - ALIGN_INFO {
      var p := q.UserPtr();
      At(l, |m|, i, b, q);
      ViewAt(l, m, p);
      ViewAt(l, m', p);
      BoundsAt(l, m, p);
      assert m'[p..p + q.req][x - p] == m[p..p + q.req][x - p];
    }
  }

  // ---------------------------------------------------------------- before the call

  lemma HeavySpared(l: Layout, m: Mem, here: Pages, z: int)
    requires Heavy(m, here, z) && InMajorHeader(l, z + 1) && InMajorHeader(l, z + 2) && InMajorHeader(l, z + 3)
    ensures !Spared(l, m, z)
  {
    hide Word;
    MaskWord(m, z);
  }

  /** A major's header at `z` is never spared: so its words need not be looked at after the call. */
  lemma AtHeader(l: Layout, m: Mem, here: Pages, z: int, i: nat)
    requires i < |l| && l[i].addr == z
    ensures !(Heavy(m, here, z) && Spared(l, m, z))
  {
    hide Spared, Heavy;
    if Heavy(m, here, z) {
      assert InHeader(l[i].addr, z + 1) && InHeader(l[i].addr, z + 2) && InHeader(l[i].addr, z + 3);
      HeavySpared(l, m, here, z);
    }
  }

  lemma HeaderAligned(l: Layout, limit: int, z: int, x: int)
    requires ValidLayout(l, limit) && z % PAGE == 0 && z <= x <= z + 3 && InMajorHeader(l, x)
    ensures exists i :: 0 <= i < |l| && l[i].addr == z
  {
    hide Region.Valid;
    var i :| 0 <= i < |l| && InHeader(l[i].addr, x);
    RegionAligned(l, limit, i);
    assert l[i].addr == z;
  }

  lemma RegionAligned(l: Layout, limit: int, i: nat)
    requires ValidLayout(l, limit) && i < |l|
    ensures 0 < l[i].addr && l[i].addr % PAGE == 0 && 0 < l[i].pages && l[i].End() <= limit
  {
  }

  lemma WordsSame(l: Layout, m: Mem, m': Mem, here: Pages, r: Region, z: int)
    requires OnlyLinks(r, l, m, m') && ValidLayout(l, |m|) && z % PAGE == 0 && z + 4 <= r.addr
    ensures Heavy(m, here, z) && Spared(l, m, z) <==> Heavy(m', here, z) && Spared(l, m', z)
  {
    hide Spared, Heavy, Protected, InHeader, ValidLayout;
    if i :| 0 <= i < |l| && l[i].addr == z {
      AtHeader(l, m, here, z, i);
      AtHeader(l, m', here, z, i);
    } else {
      forall x | 0 <= x < |m| && z <= x <= z + 3 ensures m'[x] == m[x] {
        if InMajorHeader(l, x) {
          HeaderAligned(l, |m|, z, x);
        }
      }
      SameWord(l, m, m', here, z);
    }
  }

  lemma SameWord(l: Layout, m: Mem, m': Mem, here: Pages, z: int)
    requires |m'| == |m| && forall x :: 0 <= x < |m| && z <= x <= z + 3 ==> m'[x] == m[x]
    ensures Heavy(m, here, z) && Spared(l, m, z) <==> Heavy(m', here, z) && Spared(l, m', z)
  {
    hide Protected;
  }

  /** The condition can be read off memory before the call. */
  lemma QuietBefore(l: Layout, m: Mem, m': Mem, here: Pages, r: Region, n: nat)
    requires OnlyLinks(r, l, m, m') && ValidLayout(l, |m|) && r.addr % PAGE == 0
    ensures Quiet(l, m, here, r.addr, n) <==> Quiet(l, m', here, r.addr, n)
  {
    hide OnlyLinks, ValidLayout, Spared, Heavy;
    forall i: nat | i < n
      ensures var z := Boundary(r.addr, i);
              Heavy(m, here, z) && Spared(l, m, z) <==> Heavy(m', here, z) && Spared(l, m', z)
    {
      WordsSame(l, m, m', here, r, Boundary(r.addr, i));
    }
  }

  // ---------------------------------------------------------------- free as a whole

  /** A free of `p` is harmless: it empties no major, or the pages can be given back quietly. */
  ghost predicate Harmless(l: Layout, m: Mem, here: Pages, p: int)
    requires Live(l, p)
  {
    var r := l[Locate(l, p).0];
    Empties(l, p) ==> Quiet(Freed(l, p), m, here, r.addr, if r.pages < 0 then 0 else r.pages)
  }

  /** All of free: `m1` is memory before pages are given back. */
  ghost predicate FreeEnds(l: Layout, m: Mem, here: Pages, l': Layout, m1: Mem, m': Mem, halted: bool, p: int) {
    && FreeUnlinked(l, m, l', m1, p)
    && var r := l[Locate(l, p).0];
       if Empties(l, p) && r.pages >= 0 then
         match GiveBack(m1, here, r.addr, r.pages)
         case Halts => halted
         case Given(m2, _) => !halted && m' == m2
       else !halted && m' == m1
  }

  lemma FreedValid(l: Layout, limit: int, p: int)
    requires ValidLayout(l, limit) && NoneEmpty(l) && Live(l, p)
    ensures ValidLayout(Freed(l, p), limit) && NoneEmpty(Freed(l, p))
  {
    hide ValidLayout, NoneEmpty, Release;
    ReleaseValid(l, limit, Locate(l, p).0, Locate(l, p).1);
  }

  /** A harmless free goes on, takes `p` away and changes no other caller's byte. */
  lemma HarmlessFree(l: Layout, m: Mem, here: Pages, l': Layout, m1: Mem, m': Mem, halted: bool, p: int)
    requires ValidLayout(l, |m|) && NoneEmpty(l) && FreeEnds(l, m, here, l', m1, m', halted, p)
    requires Harmless(l, m, here, p)
    ensures !halted && FreeOutcome(l, m, l', m', p)
    ensures SameProtected(l', m1, m')
  {
    hide ValidLayout, NoneEmpty, Quiet, Protected, Alien, KeepsUsers, Confined, OnlyLinks, Release, Alloc.UserPtr;
    FreedValid(l, |m|, p);
    var j := Locate(l, p).0;
    var r := l[j];
    RegionAligned(l, |m|, j);
    SameItself(l', m1);
    LiveLength(l, m, m1);
    if Empties(l, p) {
      QuietBefore(l', m, m1, here, r, r.pages);
      QuietGiven(l', m1, here, r.addr, r.pages);
      AboveSame(m1, here, r.addr, r.pages);
      KeptAfter(l, m, l', m1, m', p);
    }
  }

  lemma AboveSame(m: Mem, here: Pages, a: int, n: nat)
    requires a % PAGE == 0 && 0 <= a <= |m|
    ensures var g := GiveBack(m, here, a, n);
            g.Given? ==> |g.m| == |m| && forall x :: a <= x < |m| ==> g.m[x] == m[x]
  {
    hide AllHeavy, FramesMet, GiveBack;
    GiveBackIs(m, here, a, n);
  }

  lemma KeptAfter(l: Layout, m: Mem, l': Layout, m1: Mem, m': Mem, p: int)
    requires ValidLayout(l, |m|) && NoneEmpty(l) && FreeUnlinked(l, m, l', m1, p) && SameProtected(l', m1, m')
    requires forall x :: l[Locate(l, p).0].addr <= x < |m1| ==> m'[x] == m1[x]
    ensures KeepsUsers(m, m', l) && Alien(m', p)
  {
    hide ValidLayout, NoneEmpty, Protected, Confined, OnlyLinks, Alloc.UserPtr, Release, Alien, Unalign;
    var (j, k) := Locate(l, p);
    FreedValid(l, |m|, p);
    forall i, b | 0 <= i < |l| && 0 <= b < |l[i].allocs| ensures Kept(m, m', l[i].allocs[b]) {
      assert Kept(m, m1, l[i].allocs[b]);
      if (i, b) == (j, k) {
        InsideRegion(l, |m|, i, b);
      } else {
        var i', b' := ReleaseSpot(l, j, k, i, b);
        AllocSame(l', m1, m', i', b');
        assert Kept(m1, m', l[i].allocs[b]);
      }
    }
    InsideRegion(l, |m|, j, k);
    AlienFrame(m1, m', Block(l, p));
  }

  lemma InsideRegion(l: Layout, limit: int, i: nat, b: nat)
    requires ValidLayout(l, limit) && i < |l| && b < |l[i].allocs|
    ensures var q := l[i].allocs[b];
            && 0 < l[i].addr < q.addr < q.UserPtr() && q.UserPtr() + q.req <= q.End() <= limit
            && 0 <= q.req && q.req + ALIGNMENT + ALIGN_INFO <= q.size
  {
    Isolated(l, limit, i, b, i, b);
    AlignBounds(l[i].allocs[b]);
  }

  lemma SameItself(l: Layout, m: Mem)
    ensures SameProtected(l, m, m)
  {
  }

  lemma QuietGiven(l: Layout, m: Mem, here: Pages, a: int, n: nat)
    requires a % PAGE == 0 && 0 <= a <= |m|
    ensures var g := GiveBack(m, here, a, n);
            Quiet(l, m, here, a, n) <==> g.Given? && SameProtected(l, m, g.m)
  {
    hide AllHeavy, Spared, SameProtected, Masked, FramesMet, GiveBack;
    GiveBackIs(m, here, a, n);
    var g := GiveBack(m, here, a, n);
    if g.Given? {
      SparedIsSame(l, m, a, n, g.m);
    }
  }

  /** What the class's invariant says of memory: the lists represent the layout, and callers see `seen`. */
  ghost predicate Shows(l: Layout, m: Mem, root: int, seen: Contents) {
    Rep(m, root, l) && InBounds(l, m) && View(l, m) == seen
  }

  /** Exactly the harmless frees leave the kernel running and the heap in order: if memory showed the right
      thing when the pages were about to be given back, it does afterwards if and only if the free is
      harmless, a condition on the words below the major before the call. */
  lemma HarmlessExactly(l: Layout, m: Mem, here: Pages, l': Layout, m1: Mem, m': Mem, halted: bool, p: int,
                        root: int, seen: Contents)
    requires ValidLayout(l, |m|) && NoneEmpty(l) && FreeEnds(l, m, here, l', m1, m', halted, p)
    requires Shows(l', m1, root, seen)
    ensures Harmless(l, m, here, p) <==> !halted && Shows(l', m', root, seen)
  {
    hide ValidLayout, NoneEmpty, Quiet, Protected, Alien, KeepsUsers, Confined, OnlyLinks, Release, Alloc.UserPtr, Rep, View,
         InBounds, SameProtected, GiveBack;
    FreedValid(l, |m|, p);
    LiveLength(l, m, m1);
    var j := Locate(l, p).0;
    var r := l[j];
    RegionAligned(l, |m|, j);
    if Harmless(l, m, here, p) {
      HarmlessFree(l, m, here, l', m1, m', halted, p);
      SameKeeps(l', m1, m', root);
    } else if !halted && Shows(l', m', root, seen) {
      QuietBefore(l', m, m1, here, r, r.pages);
      QuietGiven(l', m1, here, r.addr, r.pages);
      AboveSame(m1, here, r.addr, r.pages);
      OnlySame(l', m1, m', root);
    }
  }

  function Prefixed(frames: seq<nat>, g: Given): Given {
    match g
    case Halts => Halts
    case Given(m, fs) => Given(m, frames + fs)
  }

  lemma UnlinkedOutcome(l: Layout, m: Mem, l': Layout, m1: Mem, p: int)
    requires FreeUnlinked(l, m, l', m1, p)
    ensures FreeOutcome(l, m, l', m1, p) && |m1| == |m|
  {
  }

  lemma FreeEndsIntro(l: Layout, m: Mem, here: Pages, l': Layout, m1: Mem, m': Mem, halted: bool, p: int)
    requires FreeUnlinked(l, m, l', m1, p) && 0 <= l[Locate(l, p).0].pages
    requires var r := l[Locate(l, p).0];
             if Empties(l, p) then
               match GiveBack(m1, here, r.addr, r.pages)
               case Halts => halted
               case Given(m2, _) => !halted && m' == m2
             else !halted && m' == m1
    ensures FreeEnds(l, m, here, l', m1, m', halted, p)
  {
  }

  lemma ShowsIntro(l: Layout, m: Mem, root: int)
    requires Rep(m, root, l) && InBounds(l, m)
    ensures Shows(l, m, root, View(l, m))
  {
  }

  lemma ShowsElim(l: Layout, m: Mem, root: int, seen: Contents)
    ensures Shows(l, m, root, seen) <==> Rep(m, root, l) && InBounds(l, m) && View(l, m) == seen
  {
  }

  /** A block that malloc placed in a major it found is not alone there, so freeing it gives no pages back. */
  lemma FoundHarmless(l: Layout, m: Mem, l1: Layout, m1: Mem, here: Pages, start: nat, size: int, req: int, run: int, p: int)
    requires ValidLayout(l1, |m1|) && NoneEmpty(l) && start <= |l| && 0 <= size && p != 0 && Live(l1, p)
    requires MallocOutcome(l, m, l1, m1, start, size, req, run, p)
    ensures Target(l, size + HEADER, start) < |l| ==> Harmless(l1, m1, here, p)
  {
    hide ValidLayout, Quiet, Alloc.UserPtr, KeepsUsers, Confined, Cleared, Target, SpotIn;
    var j, k := Target(l, size + HEADER, start), SpotIn(l, start, size + HEADER);
    LocateIs(l1, |m1|, j, k);
  }

  /** The layout after malloc and free is the one before. */
  lemma UndoneLayout(l: Layout, m: Mem, l1: Layout, m1: Mem, here: Pages, l2: Layout, m2: Mem, m3: Mem, halted: bool,
                     start: nat, size: int, req: int, run: int, p: int)
    requires NoneEmpty(l) && ValidLayout(l1, |m1|) && start <= |l| && 0 <= size && p != 0
    requires MallocOutcome(l, m, l1, m1, start, size, req, run, p) && FreeEnds(l1, m1, here, l2, m2, m3, halted, p)
    ensures l2 == l
  {
    hide ValidLayout, MallocOutcome, NoneEmpty, FreeUnlinked, FreeOutcome;
    UnlinkedOutcome(l1, m1, l2, m2, p);
    FreeUndoesMalloc(l, m, l1, m1, l2, m2, start, size, req, run, p);
  }

  /** The steps of a moving realloc of block `p`, from `l` in `m` to `l'` in `m'`: a malloc, a copy into
      the new block, a free. When malloc fails there is no copy; with something to copy the kernel stops
      there, with nothing to copy the old block is freed. `m3` is memory before pages are given back. */
  ghost predicate MoveSteps(l: Layout, m: Mem, start: nat, oldReq: nat, size: nat, run: int, here: Pages, p: int, q: int,
                            l1: Layout, m1: Mem, m2: Mem, m3: Mem, l': Layout, m': Mem, halted: bool)
  {
    && start <= |l| && |m| == |m1| == |m2|
    && MallocOutcome(l, m, l1, m1, start, size + ALIGNMENT + ALIGN_INFO, size, run, q)
    && (if q == 0 then m2 == m1
        else Live(l1, q) && OnlyBody(m1, m2, Block(l1, q)) && Copied(m1, m2, q, p, oldReq))
    && (if q == 0 && oldReq > 0 then halted && l' == l1 && m' == m2
        else FreeEnds(l1, m2, here, l', m3, m', halted, p))
  }

  lemma MovedSteps(l: Layout, m: Mem, start: nat, oldReq: nat, size: nat, run: int, here: Pages, p: int, q: int,
                   l1: Layout, m1: Mem, m2: Mem, m3: Mem, l': Layout, m': Mem, halted: bool)
    requires start <= |l| && MallocOutcome(l, m, l1, m1, start, size + ALIGNMENT + ALIGN_INFO, size, run, q)
    requires if q == 0 then m2 == m1
             else Live(l1, q) && OnlyBody(m1, m2, Block(l1, q)) && Copied(m1, m2, q, p, oldReq)
    requires if q == 0 && oldReq > 0 then halted && l' == l1 && m' == m2
             else FreeEnds(l1, m2, here, l', m3, m', halted, p)
    ensures MoveSteps(l, m, start, oldReq, size, run, here, p, q, l1, m1, m2, m3, l', m', halted)
  {
  }

  /** A major that lies within the pages walked over rules it out: the last word met there is its header. */
  lemma NeverQuietAbove(l: Layout, m: Mem, here: Pages, a: int, n: nat, i: nat)
    requires ValidLayout(l, |m|) && i < |l| && a % PAGE == 0 && a - n * PAGE <= l[i].addr < a
    ensures !Quiet(l, m, here, a, n)
  {
    hide Region.Valid, Heavy, Spared;
    RegionAligned(l, |m|, i);
    var k := BoundaryOf(a, n, l[i].addr);
    AtHeader(l, m, here, l[i].addr, i);
    assert Boundary(a, k) == l[i].addr;
  }

  /** With no other major left, the words met only have to be heavy. */
  lemma OnlyMajorQuiet(l: Layout, m: Mem, here: Pages, p: int)
    requires Live(l, p) && |l| == 1 && |l[0].allocs| == 1 && 0 <= l[0].pages
    ensures Harmless(l, m, here, p) <==> AllHeavy(m, here, l[0].addr, l[0].pages)
  {
    hide AllHeavy, Alloc.UserPtr;
    assert Locate(l, p).0 == 0;
    assert Freed(l, p) == [];
  }

  /** Two majors as malloc leaves them: the first nearly full with one block, the second behind it. */
  function TwoMajors(): Layout {
    [Region(0x10_0000, 16, [Alloc(0x10_0018, 0xFE20, 0xFE00)]), Region(0x11_0000, 16, [Alloc(0x11_0018, 64, 32)])]
  }

  const SECOND := 0x11_0040      // the pointer to the block of the second one

  lemma TwoMajorsLayout(limit: int)
    requires 0x12_0000 <= limit
    ensures ValidLayout(TwoMajors(), limit) && NoneEmpty(TwoMajors())
    ensures TwoMajors()[1].allocs[0].UserPtr() == SECOND && TwoMajors()[0].allocs[0].UserPtr() == 0x10_0040
  {
    var l := TwoMajors();
    assert l[0].Valid() && l[1].Valid() && Apart(l[0], l[1]);
  }

  lemma TwoMajorsFreed(l: Layout, limit: int)
    requires l == TwoMajors() && 0x12_0000 <= limit
    ensures Live(l, SECOND) && Locate(l, SECOND) == (1, 0) && Empties(l, SECOND) && Freed(l, SECOND) == [l[0]]
  {
    hide ValidLayout, NoneEmpty, Alloc.UserPtr;
    TwoMajorsLayout(limit);
    LocateIs(l, limit, 1, 0);
    assert l[..1] + l[2..] == [l[0]];
  }

  /** Freeing that block stops the kernel, or changes the block in the first major: the first word met, at
      0x10F000, belongs to it. */
  lemma SecondMajorHarms(l: Layout, m: Mem, here: Pages, l': Layout, m1: Mem, m': Mem, halted: bool)
    requires l == TwoMajors() && Live(l, SECOND) && 0x12_0000 <= |m|
    requires FreeEnds(l, m, here, l', m1, m', halted, SECOND)
    ensures !Harmless(l, m, here, SECOND)
    ensures Word(m, 0x10_F000) < 0x1000 ==> halted
    ensures !halted ==> |m'| == |m| && Word(m', 0x10_F000) == Word(m, 0x10_F000) % 0x1000 < Word(m, 0x10_F000)
  {
    hide Word, GiveBack, AllHeavy, Spared, Protected, Confined, OnlyLinks, Alien, ValidLayout, NoneEmpty, Alloc.UserPtr,
         TwoMajors, Freed, Live, Boundary;
    TwoMajorsLayout(|m|);
    TwoMajorsFreed(l, |m|);
    LiveLength(l, m, m1);
    SecondShape(l);
    OneMajor(l, |m|);
    NeverQuietAbove([l[0]], m, here, 0x11_0000, 16, 0);
    assert Kept(m, m1, l[0].allocs[0]);
    WordSame(m1, m, 0x10_F000, 0x10_F000);
    assert m1[0x10_F000..0x10_F004] == m[0x10_F000..0x10_F004];
    GiveBackWord(m1, here);
  }

  lemma SecondShape(l: Layout)
    requires l == TwoMajors()
    ensures |l| == 2 && l[0].addr == 0x10_0000 && l[1].addr == 0x11_0000 && l[1].pages == 16
    ensures |l[0].allocs| == 1 && l[0].allocs[0].req == 0xFE00
  {
  }

  lemma OneMajor(l: Layout, limit: int)
    requires ValidLayout(l, limit) && |l| == 2
    ensures ValidLayout([l[0]], limit)
  {
  }

  lemma GiveBackWord(m: Mem, here: Pages)
    requires 0x12_0000 <= |m|
    ensures var g := GiveBack(m, here, 0x11_0000, 16);
            g.Given? ==> |g.m| == |m| && Word(m, 0x10_F000) >= 0x1000 && Word(g.m, 0x10_F000) == Word(m, 0x10_F000) % 0x1000
  {
    hide Word, PutWord, AllHeavy, GiveBack, FramesMet;
    GiveBackIs(m, here, 0x11_0000, 16);
    var g := GiveBack(m, here, 0x11_0000, 16);
    if g.Given? {
      FirstHeavy(m, here, 0x11_0000, 16);
      MaskWord(m, 0x10_F000);
      var m1 := PutWord(m, 0x10_F000, Word(m, 0x10_F000) % 0x1000);
      assert g.m[0x10_F000..0x10_F004] == m1[0x10_F000..0x10_F004];
      WordSame(g.m, m1, 0x10_F000, 0x10_F000);
    }
  }

  lemma FirstHeavy(m: Mem, here: Pages, a: int, n: nat)
    requires AllHeavy(m, here, a, n) && 0 < n
    ensures Heavy(m, here, a - PAGE)
  {
    hide Heavy;
    assert Boundary(a, 0) == a - PAGE;
  }
}
