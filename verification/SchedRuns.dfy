/** Runs of the scheduler: safety in every reachable state, and bounded waiting. */
module SchedRuns {
  import opened SchedModel

  /** Every event of `es`, executed one after the other from `s`, is allowed. */
  predicate Legal(s: Sched, es: seq<Event>)
    requires Valid(s)
    decreases |es|
  {
    es == [] || (Enabled(s, es[0]) && (ExecValid(s, es[0]); Legal(Exec(s, es[0]), es[1..])))
  }

  function After(s: Sched, es: seq<Event>): (t: Sched)
    requires Valid(s) && Legal(s, es)
    ensures Valid(t)
    decreases |es|
  {
    if es == [] then s else ExecValid(s, es[0]); After(Exec(s, es[0]), es[1..])
  }

  /** In every run, threads keep their slots, a zombie stays a zombie and never is `current` again,
      and the idle task, once left, never comes back. */
  lemma {:induction false} RunSafe(s: Sched, es: seq<Event>)
    requires Valid(s) && Legal(s, es)
    ensures Keeps(s.slots, After(s, es).slots)
    ensures forall i :: 0 <= i < QUEUE && s.slots[i].Used? && s.slots[i].state == Zombie ==> After(s, es).cur != i
    ensures s.cur != 0 ==> After(s, es).cur != 0
    decreases |es|
  {
    if es != [] {
      ExecValid(s, es[0]);
      RunSafe(Exec(s, es[0]), es[1..]);
    }
  }

  // ---------------------------------------------------------------- bounded waiting

  /** Ticks, yields and exits count; queueing a process takes no time. */
  function Cost(e: Event): nat { if e.Tick? || e.Yield? || e.Exit? then 1 else 0 }

  function Slices(es: seq<Event>): nat {
    if es == [] then 0 else Cost(es[0]) + Slices(es[1..])
  }

  /** The number of selections made in a run. */
  function Selections(s: Sched, es: seq<Event>): nat
    requires Valid(s) && Legal(s, es)
    decreases |es|
  {
    if es == [] then 0
    else ExecValid(s, es[0]); (if Switches(s, es[0]) then 1 else 0) + Selections(Exec(s, es[0]), es[1..])
  }

  /** Some selection of the run picks slot `k`. */
  predicate Picked(s: Sched, es: seq<Event>, k: nat)
    requires Valid(s) && Legal(s, es)
    decreases |es|
  {
    && es != []
    && (ExecValid(s, es[0]);
        || (Switches(s, es[0]) && Exec(s, es[0]).cur == k)
        || Picked(Exec(s, es[0]), es[1..], k))
  }

  /** The thread in slot `k` becomes a zombie during the run. */
  predicate Killed(s: Sched, es: seq<Event>, k: nat)
    requires Valid(s) && Legal(s, es) && k < QUEUE
    decreases |es|
  {
    || (s.slots[k].Used? && s.slots[k].state == Zombie)
    || (es != [] && (ExecValid(s, es[0]); Killed(Exec(s, es[0]), es[1..], k)))
  }

  /** Waits for its turn: queued, alive, and not the idle task. */
  predicate Waits(s: Sched, k: nat) {
    k < |s.slots| && s.slots[k].Used? && s.slots[k].state != Zombie && s.slots[k].pid != 0
  }

  /** An upper bound on the ticks until slot `k` is picked. */
  function Potential(s: Sched, k: nat): (w: int)
    requires Valid(s) && k < QUEUE
    ensures 0 < w <= QUEUE * MAX_PROC_TIME
  {
    MAX_PROC_TIME * Distance(s.next, k) + MAX_PROC_TIME - s.slots[s.cur].time
  }

  lemma DistanceStep(next: int, j: nat, k: nat)
    requires 0 <= next <= QUEUE && j < QUEUE && k < QUEUE && j != k && Distance(next, j) <= Distance(next, k)
    ensures Distance(j + 1, k) < Distance(next, k)
  {
  }

  /** A selection that passes over a waiting thread brings the cursor nearer to it. */
  lemma SwitchNearer(s: Sched, e: Event, k: nat)
    requires Valid(s) && Enabled(s, e) && Switches(s, e) && Waits(s, k)
    ensures var t := Exec(s, e);
            || t.cur == k
            || (t.slots[k].Used? && t.slots[k].state == Zombie)
            || (Waits(t, k) && Valid(t) && Distance(t.next, k) < Distance(s.next, k) && t.slots[t.cur].time == 0)
  {
    var p := Parked(s, e);
    ExecSwitch(s, e);
    ParkedLoose(s, e);
    DispatchValid(p);
    var t := Exec(s, e);
    if t.cur != k && p.slots[k].state != Zombie {
      assert Eligible(p.slots[k], p.count);
      DistanceStep(s.next, t.cur, k);
    }
  }

  lemma StepNearer(s: Sched, e: Event, k: nat)
    requires Valid(s) && Enabled(s, e) && s.online && Waits(s, k)
    ensures var t := Exec(s, e);
            && Valid(t) && t.online
            && (|| (Switches(s, e) && t.cur == k)
                || (t.slots[k].Used? && t.slots[k].state == Zombie)
                || (Waits(t, k) && Potential(t, k) + Cost(e) <= Potential(s, k)
                    && (if Switches(s, e) then Distance(t.next, k) < Distance(s.next, k) else t.next == s.next)))
  {
    ExecValid(s, e);
    if Switches(s, e) {
      SwitchNearer(s, e, k);
    } else if e.Add? {
      AddValid(s, e.pid, e.n);
    }
  }

  /** Bounded waiting: a waiting thread is picked within `Potential` ticks, at most
      32 * MAX_PROC_TIME of them, whatever else happens, unless its process exits. */
  lemma {:induction false} BoundedWaiting(s: Sched, es: seq<Event>, k: nat)
    requires Valid(s) && s.online && Legal(s, es) && k < QUEUE && Waits(s, k)
    requires Slices(es) >= Potential(s, k)
    ensures Picked(s, es, k) || Killed(s, es, k)
    decreases |es|
  {
    if es != [] {
      StepNearer(s, es[0], k);
      var t := Exec(s, es[0]);
      if Waits(t, k) && !(Switches(s, es[0]) && t.cur == k) {
        BoundedWaiting(t, es[1..], k);
      } else if !(Switches(s, es[0]) && t.cur == k) {
        assert Killed(t, es[1..], k);
      }
    }
  }

  /** And within as many selections as the cursor has slots to pass, plus one. */
  lemma {:induction false} BoundedSelections(s: Sched, es: seq<Event>, k: nat)
    requires Valid(s) && s.online && Legal(s, es) && k < QUEUE && Waits(s, k)
    requires Selections(s, es) >= Distance(s.next, k) + 1
    ensures Picked(s, es, k) || Killed(s, es, k)
    decreases |es|
  {
    if es != [] {
      StepNearer(s, es[0], k);
      var t := Exec(s, es[0]);
      if Waits(t, k) && !(Switches(s, es[0]) && t.cur == k) {
        BoundedSelections(t, es[1..], k);
      } else if !(Switches(s, es[0]) && t.cur == k) {
        assert Killed(t, es[1..], k);
      }
    }
  }

  // ---------------------------------------------------------------- time slices

  /** Nothing takes the processor away but the timer. */
  predicate Undisturbed(es: seq<Event>) {
    forall e :: e in es ==> e.Tick? || e.Add? || e.Online?
  }

  function Ticks(es: seq<Event>): nat {
    if es == [] then 0 else (if es[0].Tick? then 1 else 0) + Ticks(es[1..])
  }

  /** The thread in slot `cur` has used `time` ticks of its slice, and the cursor is at `next`. */
  predicate At(s: Sched, cur: nat, next: int, time: int) {
    && s.online && s.cur == cur && s.next == next && |s.slots| == QUEUE && cur < QUEUE
    && s.slots[cur].Used? && s.slots[cur].time == time
  }

  lemma StepAt(s: Sched, e: Event)
    requires Valid(s) && Enabled(s, e) && s.online && (e.Tick? || e.Add? || e.Online?)
    requires e.Tick? ==> s.slots[s.cur].time + 1 < MAX_PROC_TIME
    ensures Valid(Exec(s, e)) && At(Exec(s, e), s.cur, s.next, s.slots[s.cur].time + if e.Tick? then 1 else 0)
    ensures Exec(s, e).slots[s.cur] == s.slots[s.cur].(time := Exec(s, e).slots[s.cur].time)
  {
    ExecValid(s, e);
    if e.Add? {
      AddValid(s, e.pid, e.n);
    }
  }

  /** As long as fewer ticks have passed than are left of its slice, the current thread goes on and its time
      has risen by exactly these ticks, whatever is queued in between. */
  lemma {:induction false} SliceGoesOn(s: Sched, es: seq<Event>)
    requires Valid(s) && s.online && Legal(s, es) && Undisturbed(es)
    requires Ticks(es) < MAX_PROC_TIME - s.slots[s.cur].time
    ensures At(After(s, es), s.cur, s.next, s.slots[s.cur].time + Ticks(es))
    ensures After(s, es).slots[s.cur] == s.slots[s.cur].(time := s.slots[s.cur].time + Ticks(es))
    decreases |es|
  {
    hide Exec, Valid, Enabled;
    ValidFacts(s);
    if es != [] {
      assert es[0] in es;
      StepAt(s, es[0]);
      SliceGoesOn(Exec(s, es[0]), es[1..]);
    }
  }

  lemma ValidFacts(s: Sched)
    requires Valid(s)
    ensures |s.slots| == QUEUE && s.cur < QUEUE && s.slots[s.cur].Used? && s.slots[s.cur].time < MAX_PROC_TIME
    ensures 0 <= s.next <= QUEUE
  {
  }

  /** And the tick that uses up the rest selects again: from the cursor, among the queued threads, and the
      one selected has its whole slice before it. */
  lemma SliceEnds(s: Sched, es: seq<Event>)
    requires Valid(s) && s.online && Legal(s, es) && Undisturbed(es)
    requires Ticks(es) + 1 == MAX_PROC_TIME - s.slots[s.cur].time
    ensures Enabled(After(s, es), Event.Tick)
    ensures var t := After(s, es); var u := Exec(t, Event.Tick);
            && At(t, s.cur, s.next, MAX_PROC_TIME - 1) && Valid(u) && Switches(t, Event.Tick)
            && Selected(t.slots[s.cur := t.slots[s.cur].(state := Preempted)], s.next, t.count, u.cur)
            && At(u, u.cur, u.cur + 1, 0)
  {
    hide Valid, Selected, Occupied, Keeps;
    ValidFacts(s);
    SliceGoesOn(s, es);
    var t := After(s, es);
    LastTick(t);
  }

  lemma LastTick(t: Sched)
    requires Valid(t) && t.online && t.slots[t.cur].time == MAX_PROC_TIME - 1
    ensures var u := Exec(t, Event.Tick);
            && Valid(u) && Switches(t, Event.Tick)
            && Selected(t.slots[t.cur := t.slots[t.cur].(state := Preempted)], t.next, t.count, u.cur)
            && At(u, u.cur, u.cur + 1, 0)
  {
    var p, q := Parked(t, Event.Tick), t.slots[t.cur := t.slots[t.cur].(state := Preempted)];
    ExecSwitch(t, Event.Tick);
    ParkedLoose(t, Event.Tick);
    DispatchValid(p);
    assert forall i :: 0 <= i < QUEUE ==> (Eligible(q[i], t.count) <==> Eligible(p.slots[i], p.count));
  }

  /** A whole slice: the thread a switch picks stays current for exactly MAX_PROC_TIME - 1 ticks, and the next
      one selects again. */
  lemma WholeSlice(s: Sched, e: Event, es: seq<Event>)
    requires Valid(s) && Enabled(s, e) && Switches(s, e) && Valid(Exec(s, e)) && Legal(Exec(s, e), es) && Undisturbed(es)
    ensures Ticks(es) < MAX_PROC_TIME ==> At(After(Exec(s, e), es), Exec(s, e).cur, Exec(s, e).next, Ticks(es))
    ensures Ticks(es) < MAX_PROC_TIME ==>
              (Switches(After(Exec(s, e), es), Event.Tick) <==> Ticks(es) == MAX_PROC_TIME - 1)
  {
    hide Legal, After;
    ExecSwitch(s, e);
    ParkedLoose(s, e);
    DispatchValid(Parked(s, e));
    var t := Exec(s, e);
    assert At(t, t.cur, t.next, 0);
    if Ticks(es) < MAX_PROC_TIME {
      SliceGoesOn(t, es);
    }
  }

  /** Before the idle task sets can_schedule, timer interrupts change nothing, whatever is queued meanwhile. */
  lemma {:induction false} OfflineStill(s: Sched, es: seq<Event>)
    requires Valid(s) && !s.online && Legal(s, es) && forall e :: e in es ==> e.Tick? || e.Add?
    ensures var t := After(s, es);
            !t.online && t.cur == s.cur && t.next == s.next && Kept(s.slots, t.slots)
    decreases |es|
  {
    hide Valid, Enabled;
    if es != [] {
      assert es[0] in es;
      StillOne(s, es[0]);
      OfflineStill(Exec(s, es[0]), es[1..]);
    }
  }

  /** Every thread is in its slot, in the same state, with the same time. */
  ghost predicate Kept(a: seq<Slot>, b: seq<Slot>) {
    |b| == |a| && forall i :: 0 <= i < |a| && a[i].Used? ==> b[i] == a[i]
  }

  lemma StillOne(s: Sched, e: Event)
    requires Valid(s) && !s.online && Enabled(s, e) && (e.Tick? || e.Add?)
    ensures var t := Exec(s, e); Valid(t) && !t.online && t.cur == s.cur && t.next == s.next && Kept(s.slots, t.slots)
  {
    ExecValid(s, e);
    if e.Add? {
      AddValid(s, e.pid, e.n);
    }
  }
}
