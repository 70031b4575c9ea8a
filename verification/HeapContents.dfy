/** The caller's view of the heap: which pointers are live and what bytes they hold. Section 7.20.3
    of ISO C99 describes malloc, free and realloc in these terms; nothing else of the heap shows. */
module HeapContents {
  import opened Memory
  import opened HeapLayout
  import opened HeapSearch
  import opened HeapFrames
  import opened HeapOutcome
  import opened HeapFree

  type Contents = map<int, seq<Byte>>

  function SetByte(s: seq<Byte>, i: nat, b: Byte): seq<Byte>
    requires i < |s|
  {
    s[i := b]
  }

  ghost function Pointers(l: Layout): set<int> {
    set j, k | 0 <= j < |l| && 0 <= k < |l[j].allocs| :: l[j].allocs[k].UserPtr()
  }

  lemma LiveIsPointer(l: Layout, p: int)
    ensures p in Pointers(l) <==> Live(l, p)
  {
  }

  ghost predicate InBounds(l: Layout, m: Mem) {
    forall p :: Live(l, p) ==> 0 <= p && 0 <= Block(l, p).req && p + Block(l, p).req <= |m|
  }

  ghost function View(l: Layout, m: Mem): Contents
    requires InBounds(l, m)
  {
    map p | p in Pointers(l) :: LiveIsPointer(l, p); m[p..p + Block(l, p).req]
  }

  lemma ValidInBounds(l: Layout, m: Mem)
    requires ValidLayout(l, |m|)
    ensures InBounds(l, m)
  {
    forall p | Live(l, p) ensures 0 <= p && 0 <= Block(l, p).req && p + Block(l, p).req <= |m| {
      var (j, k) := Locate(l, p);
      AlignBounds(l[j].allocs[k]);
    }
  }

  // ---------------------------------------------------------------- pointers come and go

  lemma At(l: Layout, limit: int, j: nat, k: nat, a: Alloc)
    requires ValidLayout(l, limit) && j < |l| && k < |l[j].allocs| && l[j].allocs[k] == a
    ensures Live(l, a.UserPtr()) && Block(l, a.UserPtr()) == a && Locate(l, a.UserPtr()) == (j, k)
  {
    LocateIs(l, limit, j, k);
  }

  /** `l'` is `l` with one more block, `a`. */
  ghost predicate Added(l: Layout, l': Layout, a: Alloc) {
    && !Live(l, a.UserPtr()) && Live(l', a.UserPtr()) && Block(l', a.UserPtr()) == a
    && forall x :: (Live(l', x) <==> Live(l, x) || x == a.UserPtr()) && (Live(l, x) ==> Block(l', x) == Block(l, x))
  }

  lemma PlaceKeepsBlock(l: Layout, limit: int, j: nat, k: nat, size: int, req: int, x: int)
    requires ValidLayout(l, limit) && j < |l| && k <= |l[j].allocs|
    requires ValidLayout(Place(l, j, k, size, req), limit) && Live(l, x)
    ensures var l' := Place(l, j, k, size, req);
            Live(l', x) && Block(l', x) == Block(l, x) && Locate(l', x) != (j, k)
  {
    hide Region.Valid, Alloc.UserPtr, NewAlloc, Apart;
    var l' := Place(l, j, k, size, req);
    var (i, b) := Locate(l, x);
    var c := if i == j && b >= k then b + 1 else b;
    assert l'[i].allocs[c] == l[i].allocs[b];
    At(l', limit, i, c, l[i].allocs[b]);
  }

  lemma PlaceAdds(l: Layout, limit: int, j: nat, k: nat, size: int, req: int)
    requires ValidLayout(l, limit) && j < |l| && k <= |l[j].allocs|
    requires ValidLayout(Place(l, j, k, size, req), limit)
    ensures Added(l, Place(l, j, k, size, req), NewAlloc(l[j], k, size, req))
  {
    hide ValidLayout, Alloc.UserPtr, NewAlloc, Region.Insert, Live;
    var l' := Place(l, j, k, size, req);
    var a := NewAlloc(l[j], k, size, req);
    Placed(l, j, k, size, req);
    At(l', limit, j, k, a);
    if Live(l, a.UserPtr()) {
      PlaceKeepsBlock(l, limit, j, k, size, req, a.UserPtr());
    }
    forall x ensures (Live(l', x) <==> Live(l, x) || x == a.UserPtr()) && (Live(l, x) ==> Block(l', x) == Block(l, x)) {
      if Live(l, x) {
        PlaceKeepsBlock(l, limit, j, k, size, req, x);
      } else if Live(l', x) {
        PlaceAddsOne(l, j, k, size, req, x);
      }
    }
  }

  lemma PlaceAddsOne(l: Layout, j: nat, k: nat, size: int, req: int, x: int)
    requires j < |l| && k <= |l[j].allocs| && Live(Place(l, j, k, size, req), x)
    ensures Live(l, x) || x == NewAlloc(l[j], k, size, req).UserPtr()
  {
    hide Alloc.UserPtr, NewAlloc;
    var l' := Place(l, j, k, size, req);
    var (i, b) := Locate(l', x);
    if i == j {
      assert b == k || l'[j].allocs[b] == l[j].allocs[if b < k then b else b - 1];
    }
  }

  lemma AppendSame(l: Layout, limit: int, r: Region, x: int)
    requires ValidLayout(l, limit) && ValidLayout(l + [r], limit) && r.allocs == []
    ensures Live(l + [r], x) <==> Live(l, x)
    ensures Live(l, x) ==> Block(l + [r], x) == Block(l, x)
  {
    hide Region.Valid, Alloc.UserPtr, Apart;
    var l' := l + [r];
    if Live(l, x) {
      var (i, b) := Locate(l, x);
      assert l'[i] == l[i];
      At(l', limit, i, b, l[i].allocs[b]);
    }
    if j, k :| 0 <= j < |l'| && 0 <= k < |l'[j].allocs| && l'[j].allocs[k].UserPtr() == x {
      assert l[j] == l'[j];
    }
  }

  /** `l'` is `l` without the block at `p`. */
  ghost predicate Removed(l: Layout, l': Layout, p: int) {
    forall x :: (Live(l', x) <==> Live(l, x) && x != p) && (Live(l', x) ==> Block(l', x) == Block(l, x))
  }

  /** Where block `(i, b)` sits after the block `(j, k)` was released. */
  lemma ReleaseSpot(l: Layout, j: nat, k: nat, i: nat, b: nat) returns (i': nat, b': nat)
    requires j < |l| && k < |l[j].allocs| && i < |l| && b < |l[i].allocs| && (i, b) != (j, k)
    ensures var l' := Release(l, j, k); i' < |l'| && b' < |l'[i'].allocs| && l'[i'].allocs[b'] == l[i].allocs[b]
  {
    var l' := Release(l, j, k);
    i' := if |l[j].allocs| == 1 && i > j then i - 1 else i;
    b' := if i == j && b > k then b - 1 else b;
    assert l'[i'].allocs[b'] == l[i].allocs[b];
  }

  lemma ReleaseOrigin(l: Layout, j: nat, k: nat, i: nat, b: nat) returns (i': nat, b': nat)
    requires j < |l| && k < |l[j].allocs| && i < |Release(l, j, k)| && b < |Release(l, j, k)[i].allocs|
    ensures i' < |l| && b' < |l[i'].allocs| && l[i'].allocs[b'] == Release(l, j, k)[i].allocs[b] && (i', b') != (j, k)
  {
    var l' := Release(l, j, k);
    i' := if |l[j].allocs| == 1 && i >= j then i + 1 else i;
    b' := if i' == j && b >= k then b + 1 else b;
    assert l'[i].allocs[b] == l[i'].allocs[b'];
  }

  lemma ReleaseRemoves(l: Layout, limit: int, p: int)
    requires ValidLayout(l, limit) && Live(l, p) && ValidLayout(Freed(l, p), limit)
    ensures Removed(l, Freed(l, p), p)
  {
    hide ValidLayout, Alloc.UserPtr, Release;
    var l' := Freed(l, p);
    var (j, k) := Locate(l, p);
    forall x ensures (Live(l', x) <==> Live(l, x) && x != p) && (Live(l', x) ==> Block(l', x) == Block(l, x)) {
      if Live(l, x) && x != p {
        var (i, b) := Locate(l, x);
        var i', b' := ReleaseSpot(l, j, k, i, b);
        At(l', limit, i', b', l[i].allocs[b]);
      } else if Live(l', x) {
        var (i, b) := Locate(l', x);
        var i', b' := ReleaseOrigin(l, j, k, i, b);
        At(l, limit, i', b', l'[i].allocs[b]);
      }
    }
  }

  // ---------------------------------------------------------------- what the caller sees

  lemma MallocAdds(l: Layout, m: Mem, l': Layout, m': Mem, start: nat, size: int, req: int, run: int, p: int)
    requires ValidLayout(l, |m|) && ValidLayout(l', |m|) && start <= |l| && 0 <= size && |m'| == |m|
    requires MallocOutcome(l, m, l', m', start, size, req, run, p) && p != 0
    requires Target(l, size + HEADER, start) == |l| ==> ValidLayout(l + [NewRegion(run, size)], |m|)
    ensures exists a: Alloc :: a.UserPtr() == p && a.size == size && a.req == req && Added(l, l', a)
  {
    hide ValidLayout, Alloc.UserPtr, NewAlloc, Place, Live, KeepsUsers, Confined, Cleared, Fit, PagesFor;
    var j := Target(l, size + HEADER, start);
    if j < |l| {
      var k := Fit(l[j], size + HEADER);
      PlaceAdds(l, |m|, j, k, size, req);
      Placed(l, j, k, size, req);
      assert Added(l, l', NewAlloc(l[j], k, size, req));
    } else {
      var l1 := l + [NewRegion(run, size)];
      PlaceAdds(l1, |m|, |l|, 0, size, req);
      Placed(l1, |l|, 0, size, req);
      AddedAfterAppend(l, l1, l', |m|, NewRegion(run, size), NewAlloc(l1[|l|], 0, size, req));
      assert Added(l, l', NewAlloc(l1[|l|], 0, size, req));
    }
  }

  lemma AddedAfterAppend(l: Layout, l1: Layout, l': Layout, limit: int, r: Region, a: Alloc)
    requires ValidLayout(l, limit) && l1 == l + [r] && ValidLayout(l1, limit) && r.allocs == [] && Added(l1, l', a)
    ensures Added(l, l', a)
  {
    hide ValidLayout, Alloc.UserPtr, Live;
    forall x ensures (Live(l', x) <==> Live(l, x) || x == a.UserPtr()) && (Live(l, x) ==> Block(l', x) == Block(l, x)) {
      AppendSame(l, limit, r, x);
    }
    AppendSame(l, limit, r, a.UserPtr());
  }

  lemma ViewAt(l: Layout, m: Mem, p: int)
    requires InBounds(l, m) && Live(l, p)
    ensures p in View(l, m) && View(l, m)[p] == m[p..p + Block(l, p).req]
  {
    LiveIsPointer(l, p);
  }

  lemma ViewKeys(l: Layout, m: Mem, p: int)
    requires InBounds(l, m)
    ensures p in View(l, m) <==> Live(l, p)
  {
    LiveIsPointer(l, p);
  }

  /** A kept block shows the same bytes. */
  lemma KeptView(l: Layout, m: Mem, m': Mem, p: int)
    requires ValidLayout(l, |m|) && KeepsUsers(m, m', l) && Live(l, p)
    ensures 0 <= p && 0 <= Block(l, p).req && p + Block(l, p).req <= |m| == |m'|
    ensures m'[p..p + Block(l, p).req] == m[p..p + Block(l, p).req]
  {
    ValidInBounds(l, m);
    assert Kept(m, m', Block(l, p));
  }

  /** Malloc adds one pointer nobody else holds and changes no byte anybody else holds. */
  lemma MallocView(l: Layout, m: Mem, l': Layout, m': Mem, a: Alloc)
    requires ValidLayout(l, |m|) && ValidLayout(l', |m'|) && KeepsUsers(m, m', l) && Added(l, l', a)
    requires InBounds(l, m) && InBounds(l', m')
    ensures a.UserPtr() !in View(l, m) && InBounds(l', m') && Live(l', a.UserPtr())
    ensures View(l', m') == View(l, m)[a.UserPtr() := m'[a.UserPtr()..a.UserPtr() + a.req]]
  {
    hide ValidLayout, Alloc.UserPtr, View, Live, KeepsUsers, InBounds, Block;
    var p := a.UserPtr();
    var v, v' := View(l, m), View(l', m');
    ViewKeys(l, m, p);
    ViewAt(l', m', p);
    BoundsAt(l', m', p);
    var w := v[p := m'[p..p + a.req]];
    forall x ensures (x in v' <==> x in w) && (x in v' ==> v'[x] == w[x]) {
      ViewKeys(l, m, x);
      ViewKeys(l', m', x);
      if Live(l, x) {
        KeptView(l, m, m', x);
        ViewAt(l, m, x);
        ViewAt(l', m', x);
      }
    }
  }

  lemma BoundsAt(l: Layout, m: Mem, p: int)
    requires InBounds(l, m) && Live(l, p)
    ensures 0 <= p && 0 <= Block(l, p).req && p + Block(l, p).req <= |m|
  {
  }

  /** Free takes away exactly the pointer it was given. */
  lemma FreeView(l: Layout, m: Mem, l': Layout, m': Mem, p: int)
    requires ValidLayout(l, |m|) && ValidLayout(l', |m'|) && FreeOutcome(l, m, l', m', p)
    requires InBounds(l, m) && InBounds(l', m')
    ensures View(l', m') == View(l, m) - {p}
  {
    hide ValidLayout, Alloc.UserPtr, View, Live, KeepsUsers, Confined, InBounds, Block, Freed, Alien;
    var v, v' := View(l, m), View(l', m');
    LiveLength(l, m, m');
    ReleaseRemoves(l, |m|, p);
    forall x ensures (x in v' <==> x in v - {p}) && (x in v' ==> v'[x] == (v - {p})[x]) {
      ViewKeys(l, m, x);
      ViewKeys(l', m', x);
      if Live(l', x) {
        KeptView(l, m, m', x);
        ViewAt(l, m, x);
        ViewAt(l', m', x);
      }
    }
  }

  lemma LiveLength(l: Layout, m: Mem, m': Mem)
    requires KeepsUsers(m, m', l)
    ensures |m'| == |m|
  {
  }

  lemma SupplierValid(l: Layout, limit: int, start: nat, size: int, run: int)
    requires ValidLayout(l, limit) && start <= |l| && 0 <= size && SupplierReady(l, limit, start, size, run)
    requires run != 0 && Target(l, size + HEADER, start) == |l|
    ensures ValidLayout(l + [NewRegion(run, size)], limit)
  {
    AppendValid(l, limit, run, size);
  }

  /** What a successful malloc does, as its caller sees it. */
  lemma MallocSees(l: Layout, m: Mem, l': Layout, m': Mem, start: nat, size: int, req: int, run: int, p: int)
    requires ValidLayout(l, |m|) && ValidLayout(l', |m'|) && start <= |l| && 0 <= size
    requires SupplierReady(l, |m|, start, size, run)
    requires MallocOutcome(l, m, l', m', start, size, req, run, p) && p != 0
    requires InBounds(l, m) && InBounds(l', m')
    ensures p !in View(l, m) && Live(l', p) && Block(l', p).req == req
    ensures 0 <= p && 0 <= req && p + req <= |m'| == |m|
    ensures View(l', m') == View(l, m)[p := m'[p..p + req]]
    ensures forall x :: Live(l, x) ==> Live(l', x) && Block(l', x) == Block(l, x)
  {
    hide ValidLayout, Alloc.UserPtr, View, Live, Confined, InBounds, Cleared, Target, SupplierReady, Malloced;
    LiveLength(l, m, m');
    if Target(l, size + HEADER, start) == |l| {
      SupplierValid(l, |m|, start, size, run);
    }
    MallocAdds(l, m, l', m', start, size, req, run, p);
    var a: Alloc :| a.UserPtr() == p && a.size == size && a.req == req && Added(l, l', a);
    MallocView(l, m, l', m', a);
    BoundsAt(l', m', p);
  }

  /** Free undoes malloc: freeing the pointer malloc just returned restores every major and minor. */
  lemma FreeUndoesMalloc(l: Layout, m: Mem, l1: Layout, m1: Mem, l2: Layout, m2: Mem,
                         start: nat, size: int, req: int, run: int, p: int)
    requires NoneEmpty(l) && ValidLayout(l1, |m1|) && start <= |l| && 0 <= size
    requires MallocOutcome(l, m, l1, m1, start, size, req, run, p) && p != 0
    requires FreeOutcome(l1, m1, l2, m2, p)
    ensures l2 == l
  {
    hide ValidLayout, Alloc.UserPtr, Live, KeepsUsers, Confined, Cleared, Alien, NoneEmpty, Malloced, Release, Target, SpotIn;
    var j, k := Target(l, size + HEADER, start), SpotIn(l, start, size + HEADER);
    ReleaseUndoesMalloc(l, start, size, req, run);
    LocateIs(l1, |m1|, j, k);
  }
}
