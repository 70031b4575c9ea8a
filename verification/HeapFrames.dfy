/** What heap operations leave alone, and which major an address denotes. */
module HeapFrames {
  import opened Memory
  import opened HeapLayout
  import opened HeapHeaders
  import opened HeapRelink

  /** The bytes the caller of malloc owns through `a` did not change. */
  ghost predicate Kept(m: Mem, m': Mem, a: Alloc) {
    |m'| == |m| && forall x :: 0 <= x < |m| && a.UserPtr() <= x < a.UserPtr() + a.req ==> m'[x] == m[x]
  }

  ghost predicate KeepsUsers(m: Mem, m': Mem, l: Layout) {
    |m'| == |m| && forall j, k :: 0 <= j < |l| && 0 <= k < |l[j].allocs| ==> Kept(m, m', l[j].allocs[k])
  }

  ghost predicate InRegions(l: Layout, x: int) {
    exists j :: 0 <= j < |l| && l[j].addr <= x < l[j].End()
  }

  /** Nothing changed outside the majors of `l`. */
  ghost predicate Confined(m: Mem, m': Mem, l: Layout) {
    |m'| == |m| && forall x :: 0 <= x < |m| && !InRegions(l, x) ==> m'[x] == m[x]
  }

  function IndexOf(l: Layout, addr: int): (j: nat)
    ensures j <= |l|
    ensures forall i :: 0 <= i < j ==> l[i].addr != addr
    ensures j < |l| ==> l[j].addr == addr
  {
    if l == [] || l[0].addr == addr then 0 else 1 + IndexOf(l[1..], addr)
  }

  lemma IndexOfIs(l: Layout, limit: int, j: nat)
    requires ValidLayout(l, limit) && j < |l|
    ensures IndexOf(l, l[j].addr) == j && l[j].addr != 0
  {
    forall i | 0 <= i < j ensures l[i].addr != l[j].addr {
      assert Apart(l[i], l[j]);
    }
  }

  lemma {:induction false} SameAddresses(l: Layout, l': Layout, addr: int)
    requires |l| == |l'| && forall i :: 0 <= i < |l| ==> l'[i].addr == l[i].addr
    ensures IndexOf(l', addr) == IndexOf(l, addr)
  {
    if l != [] && l[0].addr != addr {
      SameAddresses(l[1..], l'[1..], addr);
    }
  }

  /** Where malloc starts its scan: at the best bet when that has more than enough space in total. */
  function StartOf(l: Layout, bet: int, need: int): (s: nat)
    ensures l != [] ==> s < |l|
    ensures l == [] ==> s == 0
  {
    var i := IndexOf(l, bet);
    if bet != 0 && i < |l| && l[i].Free() > need then i else 0
  }

  lemma ReadMajor(m: Mem, root: int, l: Layout, j: nat)
    requires Rep(m, root, l) && j < |l|
    ensures InMem(m, l[j].addr, HEADER) && MajorAt(m, l[j].addr) == MajorHeader(l, j)
    ensures forall k :: 0 <= k < |l[j].allocs| ==> AllocRep(m, l[j], k)
  {
    hide Word, MajorAt, AllocRep;
    assert RegionRep(m, l, j);
  }

  lemma KeptInside(m: Mem, m': Mem, r: Region, k: nat)
    requires r.Valid() && k < |r.allocs| && |m'| == |m|
    requires forall x :: 0 <= x < |m| && r.allocs[k].addr + HEADER <= x < r.allocs[k].End() ==> m'[x] == m[x]
    ensures Kept(m, m', r.allocs[k])
  {
    AlignBounds(r.allocs[k]);
  }

  lemma PlaceKeeps(m: Mem, m': Mem, l: Layout, j: nat, k: nat, a: Alloc, i: nat, b: nat)
    requires ValidLayout(l, |m|) && j < |l| && k <= |l[j].allocs| && l[j].Insert(k, a).Valid()
    requires Linked(m, m', l[j], k, a) && OnlyIn(m, m', l[j]) && i < |l| && b < |l[i].allocs|
    ensures Kept(m, m', l[i].allocs[b])
  {
    hide Word, MajorAt, MinorAt, Hooked, HiddenByte, Touched, Region.Insert;
    var p := l[i].allocs[b];
    forall x | 0 <= x < |m| && p.addr + HEADER <= x < p.End() ensures m'[x] == m[x] {
      if i == j {
        OwnUntouched(l[j], k, a, b, x);
      } else {
        assert Apart(l[i], l[j]);
      }
    }
    KeptInside(m, m', l[i], b);
  }

  lemma OnlyInConfined(m: Mem, m': Mem, l: Layout, j: nat)
    requires j < |l| && OnlyIn(m, m', l[j])
    ensures Confined(m, m', l)
  {
    forall x | 0 <= x < |m| && !InRegions(l, x) ensures m'[x] == m[x] {
      assert !(l[j].addr <= x < l[j].End());
    }
  }

  /** Writes to headers of majors keep every caller's bytes. */
  lemma HeadersKeep(m: Mem, m': Mem, l: Layout, a: int, b: int)
    requires ValidLayout(l, |m|) && OnlyHeaders(m, m', a, b)
    requires a == 0 || exists i :: 0 <= i < |l| && l[i].addr == a
    requires b == 0 || (exists i :: 0 <= i < |l| && l[i].addr == b)
          || forall i :: 0 <= i < |l| ==> b + HEADER <= l[i].addr || l[i].End() <= b
    ensures KeepsUsers(m, m', l)
  {
    forall j, k | 0 <= j < |l| && 0 <= k < |l[j].allocs| ensures Kept(m, m', l[j].allocs[k]) {
      var p := l[j].allocs[k];
      forall x | 0 <= x < |m| && p.addr + HEADER <= x < p.End() ensures m'[x] == m[x] {
        if a != 0 {
          var i :| 0 <= i < |l| && l[i].addr == a;
          MajorsApart(l, |m|, j, i, x);
        }
        if i :| 0 <= i < |l| && l[i].addr == b {
          MajorsApart(l, |m|, j, i, x);
        }
      }
      KeptInside(m, m', l[j], k);
    }
  }

  lemma KeepsTransitive(m: Mem, m1: Mem, m2: Mem, l: Layout, l1: Layout)
    requires KeepsUsers(m, m1, l) && KeepsUsers(m1, m2, l1)
    requires forall j, k :: 0 <= j < |l| && 0 <= k < |l[j].allocs| ==>
               j < |l1| && k < |l1[j].allocs| && l1[j].allocs[k] == l[j].allocs[k]
    ensures KeepsUsers(m, m2, l)
  {
    forall j, k | 0 <= j < |l| && 0 <= k < |l[j].allocs| ensures Kept(m, m2, l[j].allocs[k]) {
      assert Kept(m, m1, l[j].allocs[k]) && Kept(m1, m2, l1[j].allocs[k]);
    }
  }
}
