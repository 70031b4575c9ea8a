/** The scheduler of kernel/sched.c as a transition system over its queue of 32 slots. */
module SchedModel {

  const QUEUE := 32           // THREAD_QUEUE_SIZE
  const MAX_PROC_TIME := 10

  datatype ThreadState = Null | Running | Preempted | Ready | Zombie | Removed

  datatype Slot = Empty | Used(pid: int, state: ThreadState, time: int)

  /** `cur` is the slot of `current`; `count` is `sched_current_threads`. */
  datatype Sched = Sched(slots: seq<Slot>, next: int, cur: nat, count: int, online: bool)

  datatype Event =
    | Online                   // the idle task sets can_schedule
    | Tick                     // timer interrupt
    | Yield                    // schedule_noirq
    | Exit                     // the current process removes itself
    | Add(pid: int, n: nat)    // sched_add_process

  // ---------------------------------------------------------------- selection

  function Normal(next: int): int { if next >= QUEUE then 0 else next }

  /** Slots sched_select does not skip. */
  predicate Eligible(slot: Slot, count: int) {
    slot.Used? && slot.state != Zombie && !(slot.pid == 0 && count > 1)
  }

  /** How many slots the cursor passes before it looks at slot `k`. */
  function Distance(next: int, k: nat): (d: int)
    requires 0 <= next <= QUEUE && k < QUEUE
    ensures 0 <= d < QUEUE
  {
    if k >= Normal(next) then k - Normal(next) else k + QUEUE - Normal(next)
  }

  /** Slot `k` is the one sched_select stops at. */
  ghost predicate Selected(slots: seq<Slot>, next: int, count: int, k: nat)
    requires |slots| == QUEUE && 0 <= next <= QUEUE
  {
    && k < QUEUE && Eligible(slots[k], count)
    && forall j :: 0 <= j < QUEUE && Eligible(slots[j], count) ==> Distance(next, k) <= Distance(next, j)
  }

  /** Scanning from `next`, the slot sched_select stops at; `e` is some eligible slot. */
  function Select(slots: seq<Slot>, next: int, count: int, e: nat): (k: nat)
    requires |slots| == QUEUE && 0 <= next <= QUEUE && e < QUEUE && Eligible(slots[e], count)
    ensures Selected(slots, next, count, k)
    decreases Distance(next, e)
  {
    var n := Normal(next);
    if Eligible(slots[n], count) then n else Select(slots, n + 1, count, e)
  }

  /** Selecting is determined: no two slots are equally near. */
  lemma SelectedUnique(slots: seq<Slot>, next: int, count: int, j: nat, k: nat)
    requires |slots| == QUEUE && 0 <= next <= QUEUE
    requires Selected(slots, next, count, j) && Selected(slots, next, count, k)
    ensures j == k
  {
    assert Distance(next, j) == Distance(next, k);
  }

  // ---------------------------------------------------------------- steps

  /** The rest of sched_schedule once `current` is not to go on: select, reset, run. */
  function Dispatch(s: Sched, e: nat): Sched
    requires |s.slots| == QUEUE && 0 <= s.next <= QUEUE && e < QUEUE && Eligible(s.slots[e], s.count)
  {
    var k := Select(s.slots, s.next, s.count, e);
    s.(slots := s.slots[k := s.slots[k].(state := Running, time := 0)], next := k + 1, cur := k)
  }

  /** sched_schedule. Slot 1 is init's; it is always eligible. */
  function Schedule(s: Sched): Sched
    requires |s.slots| == QUEUE && 0 <= s.next <= QUEUE && s.cur < QUEUE && s.slots[s.cur].Used?
    requires Eligible(s.slots[1], s.count)
  {
    var c := s.slots[s.cur];
    if !s.online then s
    else if c.state == Zombie then Dispatch(s, 1)
    else if c.time + 1 < MAX_PROC_TIME then s.(slots := s.slots[s.cur := c.(time := c.time + 1)])
    else Dispatch(s.(slots := s.slots[s.cur := c.(time := c.time + 1, state := Preempted)]), 1)
  }

  /** sched_mark_zombie: every thread of process `pid`. */
  function MarkZombie(slots: seq<Slot>, pid: int): (r: seq<Slot>)
    ensures |r| == |slots|
    ensures forall i :: 0 <= i < |slots| ==>
              r[i] == if slots[i].Used? && slots[i].pid == pid then slots[i].(state := Zombie) else slots[i]
  {
    if slots == [] then []
    else [if slots[0].Used? && slots[0].pid == pid then slots[0].(state := Zombie) else slots[0]]
         + MarkZombie(slots[1..], pid)
  }

  function FirstEmpty(slots: seq<Slot>): (k: nat)
    ensures k <= |slots|
    ensures forall i :: 0 <= i < k ==> slots[i].Used?
    ensures k < |slots| ==> slots[k] == Empty
  {
    if slots == [] || slots[0] == Empty then 0 else 1 + FirstEmpty(slots[1..])
  }

  /** The placement loop of sched_add_process: each thread goes to the first free slot, if there is one. */
  function Fill(slots: seq<Slot>, pid: int, n: nat): (r: seq<Slot>)
    ensures |r| == |slots|
    decreases n
  {
    if n == 0 then slots else Fill(PlaceOne(slots, pid), pid, n - 1)
  }

  function PlaceOne(slots: seq<Slot>, pid: int): (r: seq<Slot>)
    ensures |r| == |slots|
  {
    var k := FirstEmpty(slots);
    if k < |slots| then slots[k := Used(pid, Ready, 0)] else slots
  }

  predicate Accepts(s: Sched, n: nat) { s.count + n < QUEUE }

  /** What the environment may do. The idle task and init are the first two processes, later pids are fresh. */
  predicate Enabled(s: Sched, e: Event)
    requires s.cur < |s.slots|
  {
    match e
    case Online => true
    case Tick => true
    case Yield => s.online
    case Exit => s.online && s.slots[s.cur].Used? && s.slots[s.cur].pid != 1
    case Add(pid, _) => pid >= 2 && forall i :: 0 <= i < |s.slots| && s.slots[i].Used? ==> s.slots[i].pid != pid
  }

  function Exec(s: Sched, e: Event): Sched
    requires Valid(s) && Enabled(s, e)
  {
    var c := s.slots[s.cur];
    match e
    case Online => s.(online := true)
    case Tick => Schedule(s)
    case Yield => Schedule(s.(slots := s.slots[s.cur := c.(time := MAX_PROC_TIME)]))
    case Exit =>
      var z := MarkZombie(s.slots, c.pid);
      Schedule(s.(slots := z[s.cur := z[s.cur].(time := MAX_PROC_TIME)]))
    case Add(pid, n) =>
      if Accepts(s, n) then s.(slots := Fill(s.slots, pid, n), count := s.count + n) else s
  }

  function Occupied(slots: seq<Slot>): nat {
    if slots == [] then 0 else (if slots[0].Used? then 1 else 0) + Occupied(slots[1..])
  }

  /** Holds between events from boot on. */
  predicate Valid(s: Sched) {
    && |s.slots| == QUEUE && 0 <= s.next <= QUEUE && s.cur < QUEUE
    && s.slots[0].Used? && s.slots[1].Used? && s.slots[s.cur].Used?
    && s.slots[1].state != Zombie
    && s.count == Occupied(s.slots) && 2 <= s.count < QUEUE
    && (forall i :: 0 <= i < QUEUE && s.slots[i].Used? ==>
          && (s.slots[i].pid == 0 <==> i == 0) && (s.slots[i].pid == 1 <==> i == 1) && s.slots[i].pid >= 0
          && (s.slots[i].state == Running ==> i == s.cur))
    && s.slots[s.cur].state != Zombie && 0 <= s.slots[s.cur].time < MAX_PROC_TIME
  }

  /** sched_start_idle: the idle task is queued and made current, then init is queued. */
  function Boot(): Sched {
    Sched([Used(0, Ready, 0), Used(1, Ready, 0)] + seq(QUEUE - 2, i => Empty), 0, 0, 2, false)
  }

  // ---------------------------------------------------------------- what every step keeps

  lemma {:induction false} OccupiedUpdate(slots: seq<Slot>, k: nat, t: Slot)
    requires k < |slots|
    ensures Occupied(slots[k := t]) == Occupied(slots) - (if slots[k].Used? then 1 else 0) + (if t.Used? then 1 else 0)
  {
    if k == 0 {
      assert slots[k := t][1..] == slots[1..];
    } else {
      assert slots[k := t][1..] == slots[1..][k - 1 := t];
      OccupiedUpdate(slots[1..], k - 1, t);
    }
  }

  lemma {:induction false} OccupiedSame(a: seq<Slot>, b: seq<Slot>)
    requires |a| == |b| && forall i :: 0 <= i < |a| ==> (a[i].Used? <==> b[i].Used?)
    ensures Occupied(a) == Occupied(b)
  {
    if a != [] {
      OccupiedSame(a[1..], b[1..]);
    }
  }

  lemma {:induction false} OccupiedBound(slots: seq<Slot>)
    ensures Occupied(slots) <= |slots|
    ensures FirstEmpty(slots) == |slots| <==> Occupied(slots) == |slots|
  {
    if slots != [] {
      OccupiedBound(slots[1..]);
    }
  }

  /** The same threads sit in the same slots, and zombies stay zombies. */
  ghost predicate Keeps(a: seq<Slot>, b: seq<Slot>) {
    |b| == |a| && forall i :: 0 <= i < |a| && a[i].Used? ==>
      b[i].Used? && b[i].pid == a[i].pid && (a[i].state == Zombie ==> b[i].state == Zombie)
  }

  /** Valid but for `current`, whose thread may be in any state. */
  predicate Loose(s: Sched) {
    && |s.slots| == QUEUE && 0 <= s.next <= QUEUE && s.cur < QUEUE
    && s.slots[0].Used? && s.slots[1].Used? && s.slots[1].state != Zombie
    && s.slots[s.cur].Used? && s.slots[s.cur].state != Running
    && s.count == Occupied(s.slots) && 2 <= s.count < QUEUE
    && (forall i :: 0 <= i < QUEUE && s.slots[i].Used? ==>
          && (s.slots[i].pid == 0 <==> i == 0) && (s.slots[i].pid == 1 <==> i == 1) && s.slots[i].pid >= 0
          && (s.slots[i].state == Running ==> i == s.cur))
  }

  /** Switching: a valid state, on a thread that is neither a zombie nor the idle task, with a full slice. */
  lemma DispatchValid(s: Sched)
    requires Loose(s)
    ensures var t := Dispatch(s, 1);
            && Valid(t) && Keeps(s.slots, t.slots) && t.count == s.count && t.online == s.online
            && t.cur != 0 && t.slots[t.cur].state == Running && t.slots[t.cur].time == 0
            && Selected(s.slots, s.next, s.count, t.cur) && t.next == t.cur + 1
            && forall i :: 0 <= i < QUEUE && i != t.cur ==> t.slots[i] == s.slots[i]
  {
    var k := Select(s.slots, s.next, s.count, 1);
    OccupiedUpdate(s.slots, k, s.slots[k].(state := Running, time := 0));
  }

  /** The events after which another selection is made. */
  predicate Switches(s: Sched, e: Event)
    requires Valid(s)
  {
    s.online && match e
                case Tick => s.slots[s.cur].time + 1 >= MAX_PROC_TIME
                case Yield => true
                case Exit => true
                case _ => false
  }

  /** The state in which such an event makes its selection. */
  function Parked(s: Sched, e: Event): Sched
    requires Valid(s) && Switches(s, e)
  {
    var c := s.slots[s.cur];
    match e
    case Exit =>
      var z := MarkZombie(s.slots, c.pid);
      s.(slots := z[s.cur := z[s.cur].(time := MAX_PROC_TIME)])
    case _ =>
      s.(slots := s.slots[s.cur := Used(c.pid, Preempted, (if e.Yield? then MAX_PROC_TIME else c.time) + 1)])
  }

  /** Both forms of parking leave a queue fit for selection. */
  lemma ParkedLoose(s: Sched, e: Event)
    requires Valid(s) && Enabled(s, e) && Switches(s, e)
    ensures var p := Parked(s, e);
            Loose(p) && Keeps(s.slots, p.slots) && p.next == s.next && p.count == s.count && p.cur == s.cur && p.online
    ensures e.Exit? ==> forall i :: 0 <= i < QUEUE && s.slots[i].Used? && s.slots[i].pid == s.slots[s.cur].pid ==>
                          Parked(s, e).slots[i].state == Zombie
    ensures forall i | 0 <= i < QUEUE && s.slots[i].Used? && s.slots[i].state != Zombie ::
              (e.Exit? && s.slots[i].pid == s.slots[s.cur].pid) || Parked(s, e).slots[i].state != Zombie
  {
    OccupiedSame(s.slots, Parked(s, e).slots);
  }

  lemma ExecSwitch(s: Sched, e: Event)
    requires Valid(s) && Enabled(s, e) && Switches(s, e)
    ensures Loose(Parked(s, e)) && Exec(s, e) == Dispatch(Parked(s, e), 1)
  {
    hide Select, Selected, Occupied, Keeps;
    ParkedLoose(s, e);
    var p, c := Parked(s, e), s.slots[s.cur];
    if e.Yield? {
      assert s.slots[s.cur := c.(time := MAX_PROC_TIME)][s.cur := p.slots[s.cur]] == p.slots;
    }
  }

  /** A slot before and after the threads of `pid` were queued. */
  ghost predicate Filled(a: Slot, b: Slot, pid: int) {
    if a.Used? then b == a else b == Empty || b == Used(pid, Ready, 0)
  }

  /** An accepted process gets every one of its threads into the queue, in slots that were free. */
  lemma {:induction false} FillPlaces(slots: seq<Slot>, pid: int, n: nat)
    requires Occupied(slots) + n <= |slots|
    ensures var r := Fill(slots, pid, n);
            && Occupied(r) == Occupied(slots) + n
            && CountPid(r, pid) == CountPid(slots, pid) + n
            && forall i :: 0 <= i < |slots| ==> Filled(slots[i], r[i], pid)
    decreases n
  {
    if n > 0 {
      OccupiedBound(slots);
      var k := FirstEmpty(slots);
      OccupiedUpdate(slots, k, Used(pid, Ready, 0));
      CountUpdate(slots, k, pid);
      FillPlaces(slots[k := Used(pid, Ready, 0)], pid, n - 1);
    }
  }

  /** The number of queued threads of a process. */
  function CountPid(slots: seq<Slot>, pid: int): nat {
    if slots == [] then 0 else (if slots[0].Used? && slots[0].pid == pid then 1 else 0) + CountPid(slots[1..], pid)
  }

  lemma {:induction false} CountUpdate(slots: seq<Slot>, k: nat, pid: int)
    requires k < |slots| && slots[k] == Empty
    ensures CountPid(slots[k := Used(pid, Ready, 0)], pid) == CountPid(slots, pid) + 1
  {
    if k == 0 {
      assert slots[k := Used(pid, Ready, 0)][1..] == slots[1..];
    } else {
      assert slots[k := Used(pid, Ready, 0)][1..] == slots[1..][k - 1 := Used(pid, Ready, 0)];
      CountUpdate(slots[1..], k - 1, pid);
    }
  }

  /** The number of free slots. */
  function Vacant(slots: seq<Slot>): nat {
    if slots == [] then 0 else (if slots[0] == Empty then 1 else 0) + Vacant(slots[1..])
  }

  lemma {:induction false} VacantOccupied(slots: seq<Slot>)
    ensures Vacant(slots) + Occupied(slots) == |slots|
  {
    if slots != [] {
      VacantOccupied(slots[1..]);
    }
  }

  lemma AddValid(s: Sched, pid: int, n: nat)
    requires Valid(s) && Enabled(s, Add(pid, n))
    ensures var t := Exec(s, Add(pid, n));
            && Valid(t) && Keeps(s.slots, t.slots) && t.cur == s.cur && t.online == s.online && t.next == s.next
            && (forall i :: 0 <= i < QUEUE && s.slots[i].Used? ==> t.slots[i] == s.slots[i])
            && CountPid(t.slots, pid) == if Accepts(s, n) then n else 0
  {
    NoneOf(s.slots, pid);
    if Accepts(s, n) {
      FillPlaces(s.slots, pid, n);
    }
  }

  /** A process is accepted exactly when its threads leave at least one slot free; then all of them are queued,
      and otherwise nothing changes. */
  lemma AcceptedExactly(s: Sched, pid: int, n: nat)
    requires Valid(s) && Enabled(s, Add(pid, n))
    ensures var t := Exec(s, Add(pid, n));
            if n < Vacant(s.slots) then CountPid(t.slots, pid) == n && t.count == s.count + n else t == s
  {
    hide Fill, Occupied, CountPid;
    NoneOf(s.slots, pid);
    VacantOccupied(s.slots);
    if Accepts(s, n) {
      FillPlaces(s.slots, pid, n);
    }
  }

  lemma {:induction false} NoneOf(slots: seq<Slot>, pid: int)
    requires forall i :: 0 <= i < |slots| && slots[i].Used? ==> slots[i].pid != pid
    ensures CountPid(slots, pid) == 0
  {
    if slots != [] {
      NoneOf(slots[1..], pid);
    }
  }

  /** Scheduler safety, one step: whatever happens, the queue stays well formed, threads keep their
      slots, zombies stay zombies, and only `current` can be running. */
  lemma ExecValid(s: Sched, e: Event)
    requires Valid(s) && Enabled(s, e)
    ensures Valid(Exec(s, e)) && Keeps(s.slots, Exec(s, e).slots)
    ensures s.online ==> Exec(s, e).online
    ensures s.cur != 0 ==> Exec(s, e).cur != 0
  {
    if Switches(s, e) {
      ExecSwitch(s, e);
      ParkedLoose(s, e);
      DispatchValid(Parked(s, e));
    } else if e.Add? {
      AddValid(s, e.pid, e.n);
    } else {
      OccupiedSame(s.slots, Exec(s, e).slots);
    }
  }

  lemma BootValid()
    ensures Valid(Boot())
  {
    var s := Boot().slots;
    OccupiedEmpty(seq(QUEUE - 2, i => Empty));
    assert s[1..][1..] == seq(QUEUE - 2, i => Empty);
    assert Occupied(s) == 1 + Occupied(s[1..]) && Occupied(s[1..]) == 1 + Occupied(s[1..][1..]);
  }

  lemma {:induction false} OccupiedEmpty(slots: seq<Slot>)
    requires forall i :: 0 <= i < |slots| ==> slots[i] == Empty
    ensures Occupied(slots) == 0
  {
    if slots != [] {
      OccupiedEmpty(slots[1..]);
    }
  }

  lemma {:induction false} FillLast(slots: seq<Slot>, pid: int, n: nat)
    ensures Fill(slots, pid, n + 1) == PlaceOne(Fill(slots, pid, n), pid)
    decreases n
  {
    if n > 0 {
      FillLast(PlaceOne(slots, pid), pid, n - 1);
    }
  }

  /** The slots at boot, as the two calls of sched_add_process fill them. */
  lemma BootSlots()
    ensures var none := seq(QUEUE, i => Empty);
            var one := Fill(none, 0, 1);
            && Occupied(none) == 0 && |one| == QUEUE && one[0] == Used(0, Ready, 0)
            && Boot() == Sched(Fill(one, 1, 1), 0, 0, 2, false)
  {
    var none := seq(QUEUE, i => Empty);
    OccupiedEmpty(none);
    var one := none[0 := Used(0, Ready, 0)];
    assert FirstEmpty(none) == 0 && PlaceOne(none, 0) == one;
    assert Fill(none, 0, 1) == Fill(one, 0, 0) == one;
    assert FirstEmpty(one) == 1;
    var two := one[1 := Used(1, Ready, 0)];
    assert Fill(one, 1, 1) == Fill(two, 1, 0) == two;
    assert two == Boot().slots;
  }
}
