/** The best bet of malloc and free: which major `l_bestBet` names after a call. */
module HeapBet {
  import opened Memory
  import opened HeapLayout
  import opened HeapSearch
  import opened HeapFrames
  import opened HeapOutcome

  /** The free total of the best bet, 0 for none. */
  function BetSize(l: Layout, bet: int): int {
    if bet == 0 || IndexOf(l, bet) == |l| then 0 else l[IndexOf(l, bet)].Free()
  }

  /** The index of the `r`th of `n` majors, counted from `start` to the end of the list and on from the root. */
  function Looked(n: nat, start: nat, r: nat): (j: nat)
    requires start < n && r < n
    ensures j < n
  {
    if start + r < n then start + r else start + r - n
  }

  /** Major number `r` has more free memory than the best bet had, and than every one looked at before it. */
  ghost predicate Rises(l: Layout, start: nat, bet: int, r: nat)
    requires start < |l| && r < |l|
  {
    var f := l[Looked(|l|, start, r)].Free();
    BetSize(l, bet) < f && forall q: nat :: q < r ==> l[Looked(|l|, start, q)].Free() < f
  }

  /** After the first `n` majors from `start`, the best bet `b` is the earliest of those with the most free
      memory, unless none has more than the best bet there was. */
  ghost predicate Freest(l: Layout, start: nat, n: nat, bet: int, b: int)
    requires start < |l| && n <= |l|
  {
    && (b == bet || exists r: nat :: r < n && b == l[Looked(|l|, start, r)].addr && Rises(l, start, bet, r))
    && BetSize(l, bet) <= BetSize(l, b)
    && forall r: nat :: r < n ==> l[Looked(|l|, start, r)].Free() <= BetSize(l, b)
  }

  lemma FreestNone(l: Layout, start: nat, bet: int)
    requires start < |l|
    ensures Freest(l, start, 0, bet, bet)
  {
  }

  /** Looking at one more major. */
  lemma FreestNext(l: Layout, limit: int, start: nat, n: nat, bet: int, b: int)
    requires ValidLayout(l, limit) && start < |l| && n < |l| && Freest(l, start, n, bet, b)
    ensures var j := Looked(|l|, start, n);
            var b' := if BetSize(l, b) < l[j].Free() then l[j].addr else b;
            && Freest(l, start, n + 1, bet, b')
            && BetSize(l, b') == if BetSize(l, b) < l[j].Free() then l[j].Free() else BetSize(l, b)
  {
    hide ValidLayout, IndexOf, Looked;
    var j := Looked(|l|, start, n);
    IndexOfIs(l, limit, j);
    if BetSize(l, b) < l[j].Free() {
      assert Rises(l, start, bet, n);
    }
  }

  /** There is only one such best bet. */
  lemma FreestUnique(l: Layout, limit: int, start: nat, n: nat, bet: int, a: int, b: int)
    requires ValidLayout(l, limit) && start < |l| && n <= |l|
    requires Freest(l, start, n, bet, a) && Freest(l, start, n, bet, b)
    ensures a == b
  {
    hide ValidLayout, IndexOf, Looked;
    if a != bet {
      var r: nat :| r < n && a == l[Looked(|l|, start, r)].addr && Rises(l, start, bet, r);
      IndexOfIs(l, limit, Looked(|l|, start, r));
    }
    if b != bet {
      var q: nat :| q < n && b == l[Looked(|l|, start, q)].addr && Rises(l, start, bet, q);
      IndexOfIs(l, limit, Looked(|l|, start, q));
    }
  }

  // ---------------------------------------------------------------- the scan of malloc

  /** How many majors the scan looks at. */
  function Count(l: Layout, need: int, start: nat): (n: nat)
    requires start < |l|
    ensures n <= |l|
  {
    var t := Target(l, need, start);
    if t == |l| then |l| else if t >= start then t - start + 1 else t + |l| - start + 1
  }

  /** The scan is about to look at major `j`, after `n` different ones. */
  ghost predicate Looking(l: Layout, need: int, start: nat, startedBet: bool, j: nat, n: nat) {
    && start < |l| && j < |l| && n <= |l|
    && if startedBet then start <= j && n == j - start
       else if n == |l| then start <= j && (start == 0 ==> FitRegionFrom(l, need, 0) == |l|)
       else j == Looked(|l|, start, n) && (start > 0 ==> j < start)
  }

  lemma LookingBegins(l: Layout, need: int, start: nat, startedBet: bool, j: nat)
    requires start < |l| && j == (if startedBet then start else 0) && (!startedBet ==> start == 0)
    ensures Looking(l, need, start, startedBet, j, 0)
  {
  }

  /** The number of different majors looked at once major `j` is. */
  function Next(l: Layout, n: nat): nat { if n < |l| then n + 1 else n }

  lemma LookStep(l: Layout, need: int, start: nat, startedBet: bool, j: nat, n: nat)
    requires Scanning(l, need, start, startedBet, j) && Looking(l, need, start, startedBet, j, n)
    ensures n < |l| ==> j == Looked(|l|, start, n)
    ensures n <= Next(l, n) <= |l|
    ensures Fits(l[j], need) ==> Next(l, n) == Count(l, need, start)
    ensures !Fits(l[j], need) && j + 1 < |l| ==> Looking(l, need, start, startedBet, j + 1, Next(l, n))
    ensures !Fits(l[j], need) && j + 1 == |l| && startedBet ==> Looking(l, need, start, false, 0, Next(l, n))
    ensures !Fits(l[j], need) && j + 1 == |l| && !startedBet ==> Next(l, n) == |l| == Count(l, need, start)
  {
    hide Fits;
  }

  /** What Remember does to the best bet at major `j`. */
  lemma LookKeeps(l: Layout, limit: int, need: int, start: nat, startedBet: bool, j: nat, n: nat, bet: int, b: int)
    requires ValidLayout(l, limit) && Scanning(l, need, start, startedBet, j)
    requires Looking(l, need, start, startedBet, j, n) && Freest(l, start, n, bet, b)
    ensures var f := l[j].Free();
            var b' := if BetSize(l, b) < f then l[j].addr else b;
            && Freest(l, start, Next(l, n), bet, b') && BetSize(l, b') == if BetSize(l, b) < f then f else BetSize(l, b)
  {
    hide ValidLayout, IndexOf, Freest;
    LookStep(l, need, start, startedBet, j, n);
    if n < |l| {
      FreestNext(l, limit, start, n, bet, b);
    } else {
      FreestSeen(l, start, bet, b, j);
    }
  }

  /** Once all majors have been looked at, another look changes nothing. */
  lemma FreestSeen(l: Layout, start: nat, bet: int, b: int, j: nat)
    requires start < |l| && j < |l| && Freest(l, start, |l|, bet, b)
    ensures l[j].Free() <= BetSize(l, b)
  {
    var r := if j >= start then j - start else j + |l| - start;
    assert Looked(|l|, start, r) == j;
  }

  /** The best bet after a scan from `start` for `size` bytes. A new major is looked at too when the last one
      has memory enough but no gap (CASE 5), not when it has too little (CASE 1). */
  ghost predicate BetAfter(l: Layout, start: nat, size: nat, run: int, bet: int, b: int)
    requires start < |l|
  {
    if Target(l, size + HEADER, start) < |l| || run == 0 || l[|l| - 1].Free() < size + HEADER
    then Freest(l, start, Count(l, size + HEADER, start), bet, b)
    else NewBet(l, start, NewRegion(run, size).Free(), run, bet, b)
  }

  /** All majors were looked at, and then a new one at `run` with `f` bytes free. */
  ghost predicate NewBet(l: Layout, start: nat, f: int, run: int, bet: int, b: int)
    requires start < |l|
  {
    exists b0 :: Freest(l, start, |l|, bet, b0) && b == if BetSize(l, b0) < f then run else b0
  }

  /** The best bet after malloc. The very first major is always looked at. */
  ghost predicate MallocBet(l: Layout, start: nat, size: nat, run: int, bet: int, b: int) {
    if l == [] then b == run else start < |l| && BetAfter(l, start, size, run, bet, b)
  }

  lemma BetNew(l: Layout, start: nat, size: nat, run: int, bet: int, b0: int, b: int)
    requires start < |l| && Freest(l, start, |l|, bet, b0) && Target(l, size + HEADER, start) == |l|
    requires run != 0 && l[|l| - 1].Free() >= size + HEADER
    requires b == if BetSize(l, b0) < NewRegion(run, size).Free() then run else b0
    ensures BetAfter(l, start, size, run, bet, b)
  {
    hide Target, Freest, Count, BetSize;
  }

  /** The loop before it looks at major `j`: `b` is the best bet so far and `f` its free memory. */
  ghost predicate Tracking(l: Layout, need: int, start: nat, startedBet: bool, j: nat, n: nat, bet: int, b: int, f: int) {
    Looking(l, need, start, startedBet, j, n) && Freest(l, start, n, bet, b) && f == BetSize(l, b)
  }

  /** The loop before it looks at a new major, all others having memory enough but no gap. */
  ghost predicate Tracked(l: Layout, start: nat, size: nat, run: int, bet: int, b: int, f: int) {
    && start < |l| && Freest(l, start, |l|, bet, b) && f == BetSize(l, b)
    && Target(l, size + HEADER, start) == |l| && run != 0 && l[|l| - 1].Free() >= size + HEADER
  }

  lemma TrackBegins(l: Layout, need: int, start: nat, startedBet: bool, j: nat, bet: int)
    requires start < |l| && j == (if startedBet then start else 0) && (!startedBet ==> start == 0)
    ensures Tracking(l, need, start, startedBet, j, 0, bet, bet, BetSize(l, bet))
  {
    LookingBegins(l, need, start, startedBet, j);
    FreestNone(l, start, bet);
  }

  /** One look at major `j`, and how the loop goes on. */
  lemma TrackStep(l: Layout, limit: int, size: nat, run: int, start: nat, startedBet: bool, j: nat, n: nat,
                  bet: int, b: int, f: int, b': int, f': int)
    requires ValidLayout(l, limit) && Scanning(l, size + HEADER, start, startedBet, j)
    requires Tracking(l, size + HEADER, start, startedBet, j, n, bet, b, f)
    requires b' == (if f < l[j].Free() then l[j].addr else b) && f' == if f < l[j].Free() then l[j].Free() else f
    ensures var need, fits, last := size + HEADER, Fits(l[j], size + HEADER), j + 1 == |l|;
            && (fits ==> BetAfter(l, start, size, run, bet, b'))
            && (!fits && !last ==> Tracking(l, need, start, startedBet, j + 1, Next(l, n), bet, b', f'))
            && (!fits && last && startedBet ==> Tracking(l, need, start, false, 0, Next(l, n), bet, b', f'))
            && (!fits && last && !startedBet && (l[j].Free() < need || run == 0) ==> BetAfter(l, start, size, run, bet, b'))
            && (!fits && last && !startedBet && l[j].Free() >= need && run != 0 ==> Tracked(l, start, size, run, bet, b', f'))
  {
    hide ValidLayout, IndexOf, Freest, Looking, Fits, Target, Count;
    LookStep(l, size + HEADER, start, startedBet, j, n);
    LookKeeps(l, limit, size + HEADER, start, startedBet, j, n, bet, b);
    ScanStep(l, size + HEADER, start, startedBet, j);
    LookingFacts(l, size + HEADER, start, startedBet, j, n);
  }

  lemma LookingFacts(l: Layout, need: int, start: nat, startedBet: bool, j: nat, n: nat)
    requires Looking(l, need, start, startedBet, j, n)
    ensures start < |l| && j < |l| && n <= |l|
  {
  }

  /** And one look at the new major. */
  lemma TrackNew(l: Layout, start: nat, size: nat, run: int, bet: int, b: int, f: int)
    requires Tracked(l, start, size, run, bet, b, f)
    ensures start < |l| && BetAfter(l, start, size, run, bet, if f < NewRegion(run, size).Free() then run else b)
  {
    hide Freest, Target, BetAfter;
    BetNew(l, start, size, run, bet, b, if f < NewRegion(run, size).Free() then run else b);
  }

  lemma BetOf(l: Layout, start: nat, size: nat, run: int, bet: int, b: int)
    requires start < |l| && BetAfter(l, start, size, run, bet, b)
    ensures MallocBet(l, start, size, run, bet, b)
  {
    hide BetAfter;
  }

  lemma BetSizeIs(l: Layout, bet: int)
    requires bet == 0 || IndexOf(l, bet) < |l|
    ensures BetSize(l, bet) == if bet == 0 then 0 else l[IndexOf(l, bet)].Free()
  {
  }

  /** The very first call looks at its new major. */
  lemma FirstBet(limit: int, size: nat, run: int, b: int)
    requires run == 0 ==> b == 0
    requires run != 0 ==>
               var l := [NewRegion(run, size)];
               ValidLayout(l, limit) && l[0].Gap(0) >= size + HEADER && BetAfter(l, 0, size, run, 0, b)
    ensures MallocBet([], 0, size, run, 0, b)
  {
    hide PagesFor;
    if run != 0 {
      var l := [NewRegion(run, size)];
      assert Fit(l[0], size + HEADER) == 0;
      assert Target(l, size + HEADER, 0) == 0 && Count(l, size + HEADER, 0) == 1;
      assert Looked(1, 0, 0) == 0;
      NoGapBeyondFree(l[0], 0);
    }
  }

  // ---------------------------------------------------------------- what follows

  /** The scan starts at the best bet and finds room there. */
  ghost predicate BetServes(l: Layout, bet: int, need: int) {
    bet != 0 && IndexOf(l, bet) < |l| && l[IndexOf(l, bet)].Free() > need && Fits(l[IndexOf(l, bet)], need)
  }

  /** Where a request goes: to the best bet if that has more memory than needed and a gap, and from the root on
      to the first major with a gap if there is no best bet or it does not have more. */
  lemma ScanPlaces(l: Layout, bet: int, need: int)
    requires bet == 0 || IndexOf(l, bet) < |l|
    ensures BetServes(l, bet, need) ==> Target(l, need, StartOf(l, bet, need)) == IndexOf(l, bet)
    ensures bet == 0 || l[IndexOf(l, bet)].Free() <= need ==>
              forall i :: 0 <= i < Target(l, need, StartOf(l, bet, need)) ==> !Fits(l[i], need)
  {
  }

  /** A best bet that serves the request stays. */
  lemma ServesStays(l: Layout, limit: int, size: nat, run: int, bet: int, b: int)
    requires ValidLayout(l, limit) && BetServes(l, bet, size + HEADER)
    requires MallocBet(l, StartOf(l, bet, size + HEADER), size, run, bet, b)
    ensures b == bet
  {
    hide ValidLayout, IndexOf, Fits;
    var start := StartOf(l, bet, size + HEADER);
    ScanPlaces(l, bet, size + HEADER);
    assert start == IndexOf(l, bet) && Count(l, size + HEADER, start) == 1;
    assert Looked(|l|, start, 0) == start;
  }

  /** A malloc that gets its block from the majors there are, or the first one of all, leaves a best bet. One
      that had none and needs a new major leaves none exactly when all majors were full to the last byte. */
  lemma LeavesBet(l: Layout, limit: int, size: nat, run: int, b: int)
    requires ValidLayout(l, limit) && MallocBet(l, 0, size, run, 0, b)
    requires Target(l, size + HEADER, 0) < |l| || run != 0
    requires run == 0 || FreshRun(l, limit, run, PagesFor(size))
    ensures b == 0 <==> l != [] && Target(l, size + HEADER, 0) == |l| && forall i :: 0 <= i < |l| ==> l[i].Free() == 0
  {
    hide ValidLayout, IndexOf, PagesFor, Region.Free, Region.Valid, Freest, Target;
    if l != [] {
      var t, n := Target(l, size + HEADER, 0), Count(l, size + HEADER, 0);
      var last := |l| - 1;
      if t < |l| {
        FitHasMemory(l, limit, t, size + HEADER);
        NoBetExactly(l, limit, n, b);
      } else if l[last].Free() < size + HEADER {
        NoBetExactly(l, limit, n, b);
      } else {
        var b0 :| Freest(l, 0, |l|, 0, b0) && b == if BetSize(l, b0) < NewRegion(run, size).Free() then run else b0;
        NoBetExactly(l, limit, |l|, b0);
        assert l[last].Free() > 0;
      }
    }
  }

  /** A major that one block fills. */
  function FullMajor(): Layout { [Region(0x10_0000, 16, [Alloc(0x10_0018, 0xFFD0, 0xFFB0)])] }

  /** Such a malloc: the new major is taken, and there is still no best bet. */
  lemma FullMajorLeavesNone(limit: int, size: nat, run: int, b: int)
    requires 0x11_0000 <= limit && run != 0 && FreshRun(FullMajor(), limit, run, PagesFor(size))
    requires MallocBet(FullMajor(), 0, size, run, 0, b)
    ensures ValidLayout(FullMajor(), limit) && Target(FullMajor(), size + HEADER, 0) == 1 && b == 0
  {
    hide *;
    FullFacts(limit, size);
    LeavesBet(FullMajor(), limit, size, run, b);
  }

  lemma FullFacts(limit: int, size: nat)
    requires 0x11_0000 <= limit
    ensures var l := FullMajor();
            && ValidLayout(l, limit) && |l| == 1 && l[0].Free() == 0 && Target(l, size + HEADER, 0) == 1
  {
    hide FullMajor, Region.Gap, Region.Free, Region.Valid, FitFrom;
    FullRegion();
    FitIsLowest(FullMajor()[0], size + HEADER);
  }

  lemma FullRegion()
    ensures |FullMajor()| == 1
    ensures var r := FullMajor()[0];
            && r.Valid() && r.End() == 0x11_0000 && |r.allocs| == 1 && r.Gap(0) == 0 && r.Gap(1) == 0 && r.Free() == 0
  {
    hide FitFrom;
  }

  lemma NoBetExactly(l: Layout, limit: int, n: nat, b: int)
    requires ValidLayout(l, limit) && l != [] && n <= |l| && Freest(l, 0, n, 0, b)
    ensures b == 0 <==> forall i :: 0 <= i < n ==> l[i].Free() == 0
  {
    hide ValidLayout, Region.Free, IndexOf;
    forall i: nat | i < n ensures Looked(|l|, 0, i) == i && l[i].addr != 0 && l[i].Free() >= 0 {
      IndexOfIs(l, limit, i);
      FreeNotNegative(l, limit, i);
    }
  }

  lemma FreeNotNegative(l: Layout, limit: int, i: nat)
    requires ValidLayout(l, limit) && i < |l|
    ensures l[i].Free() >= 0
  {
    assert l[i].Valid() && l[i].Gap(0) >= 0;
    NoGapBeyondFree(l[i], 0);
  }

  lemma FitHasMemory(l: Layout, limit: int, t: nat, need: int)
    requires ValidLayout(l, limit) && t < |l| && Fits(l[t], need)
    ensures l[t].Free() >= need
  {
    NoGapBeyondFree(l[t], Fit(l[t], need));
  }

  // ---------------------------------------------------------------- free

  /** A free total as the signed number that free compares. */
  function Signed(f: int): int { if f < 0x8000_0000 then f else f - WORD_LIMIT }

  /** The best bet after free took a block from the major at `addr` and left layout `l`: none if that major
      was the best bet and is gone, and that major if it now has more free memory than the best bet. */
  ghost predicate FreeBet(l: Layout, addr: int, emptied: bool, bet: int, b: int) {
    if emptied then b == if bet == addr then 0 else bet
    else b == if bet != 0 && Signed(BetSize(l, bet)) < Signed(BetSize(l, addr)) then addr else bet
  }

  /** So a free of less than 2 GiB of free memory leaves no best bet behind that is worse than its major, and
      changes it to no other one. */
  lemma FreeBetBetter(l: Layout, addr: int, bet: int, b: int)
    requires FreeBet(l, addr, false, bet, b) && bet != 0
    requires BetSize(l, addr) < 0x8000_0000 && BetSize(l, bet) < 0x8000_0000
    ensures (b == bet || b == addr) && BetSize(l, addr) <= BetSize(l, b) && BetSize(l, bet) <= BetSize(l, b)
    ensures b != bet ==> BetSize(l, bet) < BetSize(l, b)
  {
    hide BetSize;
  }
}
