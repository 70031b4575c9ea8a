/** kernel/sched.c on its own data: a queue of thread pointers, threads and processes updated in place. */
module SchedClass {
  import ContextSwitch
  import opened SchedModel

  class Process {
    const pid: int
    var threads: seq<Thread>   // threads[0..no_threads]

    constructor (pid: int)
      ensures this.pid == pid && threads == []
    {
      this.pid := pid;
      threads := [];
    }
  }

  class Thread {
    const owner: Process
    var state: ThreadState
    var timeUsed: int
    var r: ContextSwitch.PtRegs

    constructor (owner: Process, r: ContextSwitch.PtRegs)
      ensures this.owner == owner && state == Null && timeUsed == 0 && this.r == r
    {
      this.owner := owner;
      this.r := r;
      state := Null;
      timeUsed := 0;
    }
  }

  /** What sched_mk_process is given and gets: whether a name was passed, the entry point, which of its three
      allocations succeed, the stack page (0 for none), and the cr3 of its caller. */
  datatype Grant = Grant(named: bool, entry: int, process: bool, thread: bool, list: bool, page: int, cr3: int) {
    /** The process gets as far as taking a pid. */
    predicate Numbered() { named && entry != 0 && process && thread && list }

    predicate Granted() { Numbered() && page != 0 }
  }

  /** What the queue shows of one entry. */
  ghost predicate Shows(t: Thread?, slot: Slot)
    reads t
  {
    if t == null then slot == Empty else slot == Used(t.owner.pid, t.state, t.timeUsed)
  }

  lemma SelectStep(slots: seq<Slot>, next: int, count: int, e: nat)
    requires |slots| == QUEUE && 0 <= next <= QUEUE && e < QUEUE && Eligible(slots[e], count)
    ensures var n := Normal(next);
            && 0 <= n < QUEUE
            && (if Eligible(slots[n], count) then Select(slots, next, count, e) == n
                else Select(slots, n + 1, count, e) == Select(slots, next, count, e) && Distance(n + 1, e) < Distance(next, e))
  {
  }

  lemma FillNone(slots: seq<Slot>, pid: int)
    ensures Fill(slots, pid, 0) == slots
  {
  }

  /** While there is room, the next thread goes to the first free slot. */
  lemma FillNext(slots: seq<Slot>, pid: int, n: nat)
    requires Occupied(slots) + n < |slots|
    ensures var f := Fill(slots, pid, n);
            FirstEmpty(f) < |f| && Fill(slots, pid, n + 1) == f[FirstEmpty(f) := Used(pid, Ready, 0)]
  {
    FillLast(slots, pid, n);
    FillPlaces(slots, pid, n);
    OccupiedBound(Fill(slots, pid, n));
  }

  /** Whole processes are queued in `q`, and a pid belongs to one process. */
  ghost predicate WholeQueue(q: seq<Thread?>, os: set<Process>)
    reads os
  {
    && (forall i :: 0 <= i < |q| && q[i] != null ==> q[i].owner in os && q[i] in q[i].owner.threads)
    && (forall p, t :: p in os && t in p.threads ==> t.owner == p && t in q)
    && (forall p, r :: p in os && r in os && p.pid == r.pid ==> p == r)
  }

  class Scheduler {
    const queue: array<Thread?>   // thread_queue
    var next: int                 // sched_next
    var count: int                // sched_current_threads
    var processes: int            // sched_current_processes
    var online: bool              // can_schedule
    var current: Thread?
    ghost var view: Sched
    ghost var threads: set<Thread>
    ghost var owners: set<Process>

    ghost predicate Entry(ths: set<Thread>, slots: seq<Slot>, i: nat)
      requires i < QUEUE && queue.Length == |slots| == QUEUE
      reads queue, ths
    {
      (queue[i] != null ==> queue[i] in ths) && Shows(queue[i], slots[i])
    }

    /** The queue shows `slots`; its threads are among `ths` and none is queued twice. */
    ghost predicate Queued(ths: set<Thread>, slots: seq<Slot>)
      reads queue, ths
    {
      && queue.Length == QUEUE && |slots| == QUEUE
      && (forall i :: 0 <= i < QUEUE ==> Entry(ths, slots, i))
      && (forall i, j :: 0 <= i < j < QUEUE && queue[i] != null ==> queue[i] != queue[j])
    }

    ghost predicate Whole(os: set<Process>)
      reads queue, os
    {
      WholeQueue(queue[..], os)
    }

    ghost predicate Rep()
      reads this, queue, threads, owners
    {
      && Queued(threads, view.slots) && Whole(owners)
      && next == view.next && count == view.count && online == view.online
      && view.cur < QUEUE && current == queue[view.cur]
    }

    /** sched_select. `e` is the slot of some eligible thread; there always is one, init's. */
    method SelectThread(ghost slots: seq<Slot>, ghost e: nat) returns (t: Thread, ghost k: nat)
      requires Queued(threads, slots) && 0 <= next <= QUEUE && e < QUEUE && Eligible(slots[e], count)
      modifies this`next
      ensures Selected(slots, old(next), count, k) && t == queue[k] && next == k + 1
      ensures k == Select(slots, old(next), count, e)
    {
      hide Selected, Select, Distance;
      while true
        invariant Queued(threads, slots) && 0 <= next <= QUEUE
        invariant Select(slots, next, count, e) == Select(slots, old(next), count, e)
        decreases Distance(next, e)
      {
        SelectStep(slots, next, count, e);
        if next >= QUEUE {
          next := 0;
        }
        var cand := queue[next];
        k := next;
        assert Entry(threads, slots, k);
        next := next + 1;
        if cand == null || cand.state == Zombie || (cand.owner.pid == 0 && count > 1) {
          continue;
        }
        t := cand;
        return;
      }
    }

    /** The inner loop of sched_add_process: the first free slot, if any. */
    method PlaceThread(t: Thread) returns (k: nat)
      requires queue.Length == QUEUE
      modifies queue
      ensures k <= QUEUE && forall i :: 0 <= i < k ==> old(queue[i]) != null
      ensures k < QUEUE ==> old(queue[k]) == null && queue[k] == t
      ensures forall i :: 0 <= i < QUEUE && i != k ==> queue[i] == old(queue[i])
    {
      k := 0;
      while k < QUEUE
        invariant k <= QUEUE && forall i :: 0 <= i < k ==> queue[i] != null
        invariant forall i :: 0 <= i < QUEUE ==> queue[i] == old(queue[i])
      {
        if queue[k] == null {
          queue[k] := t;
          return;
        }
        k := k + 1;
      }
    }

    /** A process whose threads were never queued, as sched_mk_process leaves it. */
    ghost predicate Unqueued(p: Process)
      reads this`threads, this`owners, p, p.threads, owners
    {
      && p !in owners && (forall q :: q in owners ==> q.pid != p.pid)
      && (forall t :: t in p.threads ==> t.owner == p && t !in threads && t.timeUsed == 0)
      && (forall i, j :: 0 <= i < j < |p.threads| ==> p.threads[i] != p.threads[j])
    }

    /** The free slots of the queue are those of `slots`. */
    ghost predicate SameFree(slots: seq<Slot>)
      reads queue
    {
      queue.Length == |slots| == QUEUE && forall i :: 0 <= i < QUEUE ==> (queue[i] == null <==> slots[i] == Empty)
    }

    /** The placement loops of sched_add_process. */
    method PlaceAll(ts: seq<Thread>, pid: int, ghost slots: seq<Slot>) returns (ghost at: seq<nat>)
      requires SameFree(slots) && Occupied(slots) + |ts| <= QUEUE
      modifies queue
      ensures SameFree(Fill(slots, pid, |ts|))
      ensures |at| == |ts| && forall j :: 0 <= j < |ts| ==> at[j] < QUEUE && old(queue[at[j]]) == null && queue[at[j]] == ts[j]
      ensures forall i :: 0 <= i < QUEUE && i !in at ==> queue[i] == old(queue[i])
    {
      hide Fill, Occupied;
      FillNone(slots, pid);
      at := [];
      for n := 0 to |ts|
        invariant |at| == n && SameFree(Fill(slots, pid, n))
        invariant forall j :: 0 <= j < n ==> at[j] < QUEUE && old(queue[at[j]]) == null && queue[at[j]] == ts[j]
        invariant forall i :: 0 <= i < QUEUE && i !in at ==> queue[i] == old(queue[i])
      {
        ghost var f := Fill(slots, pid, n);
        FillNext(slots, pid, n);
        var k := PlaceThread(ts[n]);
        assert k == FirstEmpty(f) && k !in at;
        at := at + [k];
      }
    }

    /** Set the state of every thread of a process: sched_mark_zombie, and the last loop of sched_add_process. */
    method SetStates(p: Process, state: ThreadState)
      modifies p.threads
      ensures p.threads == old(p.threads)
      ensures forall t :: t in p.threads ==> t.state == state && t.timeUsed == old(t.timeUsed)
    {
      for j := 0 to |p.threads|
        invariant p.threads == old(p.threads)
        invariant forall t :: t in p.threads[..j] ==> t.state == state
        invariant forall t :: t in p.threads ==> t.timeUsed == old(t.timeUsed)
      {
        p.threads[j].state := state;
      }
    }

    /** Threads `ts` of process `p` went to slots `at` of a queue that was `q` and showed `slots`, and are ready. */
    ghost predicate Joined(ths: set<Thread>, q: seq<Thread?>, slots: seq<Slot>, p: Process, ts: seq<Thread>, at: seq<nat>)
      reads queue, ts, ths
    {
      && queue.Length == |q| == |slots| == QUEUE && |at| == |ts|
      && (forall i :: 0 <= i < QUEUE ==> (q[i] != null ==> q[i] in ths) && Shows(q[i], slots[i]))
      && (forall i, j :: 0 <= i < j < QUEUE && q[i] != null ==> q[i] != q[j])
      && (forall j :: 0 <= j < |ts| ==> at[j] < QUEUE && q[at[j]] == null && queue[at[j]] == ts[j])
      && (forall i :: 0 <= i < QUEUE && i !in at ==> queue[i] == q[i])
      && (forall t :: t in ts ==> t.owner == p && t !in ths && t.state == Ready && t.timeUsed == 0)
      && (forall i, j :: 0 <= i < j < |ts| ==> ts[i] != ts[j])
    }

    lemma JoinedEntry(ths: set<Thread>, q: seq<Thread?>, slots: seq<Slot>, p: Process, ts: seq<Thread>, at: seq<nat>,
                      f: seq<Slot>, all: set<Thread>, i: nat)
      requires Joined(ths, q, slots, p, ts, at) && SameFree(f) && i < QUEUE && Filled(slots[i], f[i], p.pid)
      requires ths <= all && forall t :: t in ts ==> t in all
      ensures Entry(all, f, i)
    {
      if j :| 0 <= j < |at| && at[j] == i {
        assert queue[i] == ts[j];
      }
    }

    lemma JoinedDistinct(ths: set<Thread>, q: seq<Thread?>, slots: seq<Slot>, p: Process, ts: seq<Thread>, at: seq<nat>,
                         i: nat, b: nat)
      requires Joined(ths, q, slots, p, ts, at) && i < b < QUEUE && queue[i] != null
      ensures queue[i] != queue[b]
    {
      if i in at && b in at {
        var x, y :| 0 <= x < |at| && at[x] == i && 0 <= y < |at| && at[y] == b;
        assert queue[i] == ts[x] && queue[b] == ts[y];
      } else if i in at {
        var x :| 0 <= x < |at| && at[x] == i;
        assert queue[i] == ts[x];
      } else if b in at {
        var y :| 0 <= y < |at| && at[y] == b;
        assert queue[b] == ts[y];
      }
    }

    lemma JoinedQueued(ths: set<Thread>, q: seq<Thread?>, slots: seq<Slot>, p: Process, ts: seq<Thread>, at: seq<nat>,
                       f: seq<Slot>, all: set<Thread>)
      requires Joined(ths, q, slots, p, ts, at) && SameFree(f)
      requires forall i :: 0 <= i < QUEUE ==> Filled(slots[i], f[i], p.pid)
      requires ths <= all && forall t :: t in ts ==> t in all
      ensures Queued(all, f)
    {
      forall i: nat | i < QUEUE ensures Entry(all, f, i) {
        JoinedEntry(ths, q, slots, p, ts, at, f, all, i);
      }
      forall i, b | 0 <= i < b < QUEUE && queue[i] != null ensures queue[i] != queue[b] {
        JoinedDistinct(ths, q, slots, p, ts, at, i, b);
      }
    }

    lemma JoinedWhole(ths: set<Thread>, q: seq<Thread?>, slots: seq<Slot>, p: Process, ts: seq<Thread>, at: seq<nat>,
                      os: set<Process>)
      requires Joined(ths, q, slots, p, ts, at) && ts == p.threads && p !in os && forall o :: o in os ==> o.pid != p.pid
      requires WholeQueue(q, os)
      ensures Whole(os + {p})
    {
      var all := os + {p};
      forall i | 0 <= i < QUEUE && queue[i] != null
        ensures queue[i].owner in all && queue[i] in queue[i].owner.threads
      {
        if j :| 0 <= j < |at| && at[j] == i {
          assert queue[i] == ts[j];
        }
      }
      forall o, t | o in all && t in o.threads ensures t.owner == o && t in queue[..] {
        if o == p {
          var j :| 0 <= j < |ts| && ts[j] == t;
          assert queue[..][at[j]] == t;
        } else {
          assert o in os && t in q;
          var i :| 0 <= i < |q| && q[i] == t;
          assert queue[..][i] == t;
        }
      }
    }

    lemma SlotsFree(slots: seq<Slot>)
      requires Queued(threads, slots)
      ensures SameFree(slots) && queue.Length == |slots| == QUEUE
      ensures forall i :: 0 <= i < QUEUE ==> (queue[i] != null ==> queue[i] in threads) && Shows(queue[i], slots[i])
    {
      forall i | 0 <= i < QUEUE
        ensures (queue[i] != null ==> queue[i] in threads) && Shows(queue[i], slots[i])
        ensures queue[i] == null <==> slots[i] == Empty
      {
        assert Entry(threads, slots, i);
      }
    }

    /** The accepted path of sched_add_process on the queue and the threads. */
    method Enqueue(p: Process, ghost slots: seq<Slot>) returns (ghost at: seq<nat>)
      requires Queued(threads, slots) && Unqueued(p) && Occupied(slots) + |p.threads| <= QUEUE
      modifies queue, p.threads
      ensures Joined(threads, old(queue[..]), slots, p, p.threads, at) && SameFree(Fill(slots, p.pid, |p.threads|))
      ensures p.threads == old(p.threads)
      ensures forall i :: 0 <= i < QUEUE && old(queue[i]) != null ==> queue[i] == old(queue[i])
    {
      hide Fill, Occupied;
      SlotsFree(slots);
      ghost var q := queue[..];
      assert forall i :: 0 <= i < QUEUE ==> (q[i] != null ==> q[i] in threads) && Shows(q[i], slots[i]);
      at := PlaceAll(p.threads, p.pid, slots);
      SetStates(p, Ready);
      assert forall i :: 0 <= i < QUEUE ==> (q[i] != null ==> q[i] in threads) && Shows(q[i], slots[i]);
    }

    /** sched_add_process; 0, or a negated error number. */
    method AddProcess(p: Process?) returns (rc: int)
      requires Queued(threads, view.slots) && Whole(owners) && count == view.count == Occupied(view.slots)
      requires p != null ==> Unqueued(p)
      modifies this`count, this`processes, this`view, this`threads, this`owners, queue, if p == null then [] else p.threads
      ensures Queued(threads, view.slots) && Whole(owners) && count == view.count == Occupied(view.slots)
      ensures p == null ==> rc == -22 && view == old(view)
      ensures p != null ==> rc == if Accepts(old(view), |p.threads|) then 0 else -28
      ensures p != null ==>
                var v := old(view);
                view == if Accepts(v, |p.threads|)
                        then v.(slots := Fill(v.slots, p.pid, |p.threads|), count := v.count + |p.threads|) else v
      ensures forall i :: 0 <= i < QUEUE && old(queue[i]) != null ==> queue[i] == old(queue[i])
      ensures forall t :: t in threads && t !in old(threads) ==> p != null && t in p.threads
      ensures owners == if rc == 0 then old(owners) + {p} else old(owners)
      ensures processes == old(processes) + if rc == 0 then 1 else 0
    {
      hide Fill, Occupied, CountPid, Joined, WholeQueue, Queued, SameFree, Filled;
      if p == null {
        return -22;   // -EINVAL
      }
      if count + |p.threads| >= QUEUE {
        return -28;   // -ENOSPC
      }
      ghost var slots, q := view.slots, queue[..];
      ghost var f := Fill(slots, p.pid, |p.threads|);
      SlotsFree(slots);
      FillPlaces(slots, p.pid, |p.threads|);
      ghost var at := Enqueue(p, slots);
      processes := processes + 1;
      count := count + |p.threads|;
      ghost var ths := threads + set t | t in p.threads;
      JoinedQueued(threads, q, slots, p, p.threads, at, f, ths);
      JoinedWhole(threads, q, slots, p, p.threads, at, owners);
      view := view.(slots := f, count := view.count + |p.threads|);
      threads := ths;
      owners := owners + {p};
      rc := 0;
    }

    /** Writing the state and time of the thread in slot `k` changes that slot alone. */
    method Write(t: Thread, state: ThreadState, time: int, ghost k: nat, ghost slots: seq<Slot>)
      requires Queued(threads, slots) && k < QUEUE && queue[k] == t
      modifies t
      ensures t.state == state && t.timeUsed == time && slots[k].Used? && slots[k].pid == t.owner.pid
      ensures Queued(threads, slots[k := slots[k].(state := state, time := time)])
    {
      t.state := state;
      t.timeUsed := time;
      assert forall i: nat :: i < QUEUE ==> old(Entry(threads, slots, i));
      assert old(Entry(threads, slots, k));
      ghost var after := slots[k := slots[k].(state := state, time := time)];
      forall i: nat | i < QUEUE ensures Entry(threads, after, i) {
        assert old(Entry(threads, slots, i));
      }
    }

    /** The part of sched_schedule from `next:` on. */
    method SwitchTo(ghost slots: seq<Slot>)
      requires Queued(threads, slots) && Whole(owners) && 0 <= next <= QUEUE && Eligible(slots[1], count)
      modifies this`next, this`current, this`view, threads
      ensures var d := Dispatch(Sched(slots, old(next), 0, count, online), 1);
              Rep() && view == d
    {
      hide Select, Entry, WholeQueue;
      ghost var k;
      current, k := SelectThread(slots, 1);
      InQueue(slots, k);
      Write(current, Running, 0, k, slots);
      view := Dispatch(Sched(slots, old(next), 0, count, online), 1);
    }

    lemma InQueue(slots: seq<Slot>, k: nat)
      requires Queued(threads, slots) && k < QUEUE && queue[k] != null
      ensures queue[k] in threads && slots[k] == Used(queue[k].owner.pid, queue[k].state, queue[k].timeUsed)
    {
      assert Entry(threads, slots, k);
    }

    /** sched_schedule. */
    method Schedule()
      requires Rep() && 0 <= view.next <= QUEUE && view.slots[view.cur].Used? && Eligible(view.slots[1], view.count)
      modifies this`next, this`current, this`view, threads
      ensures Rep() && view == SchedModel.Schedule(old(view))
    {
      hide Select, Selected, Entry, WholeQueue, Queued;
      CurrentQueued();
      if !online {
        return;
      }
      ghost var k, slots := view.cur, view.slots;
      if current.state != Zombie {
        var time := current.timeUsed + 1;
        if time < MAX_PROC_TIME {
          Write(current, current.state, time, k, slots);
          view := view.(slots := slots[k := slots[k].(time := time)]);
          return;
        }
        Write(current, Preempted, time, k, slots);
        slots := slots[k := slots[k].(state := Preempted, time := time)];
      }
      SwitchTo(slots);
    }

    lemma CurrentQueued()
      requires Rep() && view.slots[view.cur].Used?
      ensures queue.Length == |view.slots| == QUEUE && current != null && current in threads
      ensures view.slots[view.cur] == Used(current.owner.pid, current.state, current.timeUsed) && current.owner in owners
    {
      assert queue[..][view.cur] == queue[view.cur];
      assert Entry(threads, view.slots, view.cur);
    }

    /** The timer interrupt. */
    method Tick()
      requires Rep() && Valid(view)
      modifies this`next, this`current, this`view, threads
      ensures Rep() && view == Exec(old(view), Event.Tick)
    {
      Schedule();
    }

    /** schedule_noirq: give up the rest of the slice. */
    method Yield()
      requires Rep() && Valid(view) && online
      modifies this`next, this`current, this`view, threads
      ensures Rep() && view == Exec(old(view), Event.Yield)
    {
      hide Select, Selected, Entry, WholeQueue, Queued, Occupied;
      CurrentQueued();
      ghost var k, slots := view.cur, view.slots;
      Write(current, current.state, MAX_PROC_TIME, k, slots);
      view := view.(slots := slots[k := slots[k].(time := MAX_PROC_TIME)]);
      Schedule();
    }

    /** sched_rm_process on the current process; init must not exit. */
    method Exit() returns (panic: bool)
      requires Rep() && Valid(view) && online
      modifies this`next, this`current, this`view, threads
      ensures Rep() && (panic <==> old(view).slots[old(view).cur].pid == 1)
      ensures view == if panic then old(view) else Exec(old(view), Event.Exit)
    {
      hide Select, Selected, Entry, WholeQueue, Queued, Occupied;
      CurrentQueued();
      if current.owner.pid == 1 {
        return true;   // "Attempted to kill init process!"
      }
      panic := false;
      ghost var k, c := view.cur, view.slots[view.cur];
      MarkZombies(current.owner, view.slots);
      ghost var z := MarkZombie(view.slots, c.pid);
      view := view.(slots := z);
      CurrentQueued();
      Write(current, current.state, MAX_PROC_TIME, k, z);
      view := view.(slots := z[k := z[k].(time := MAX_PROC_TIME)]);
      Schedule();
    }

    /** sched_mark_zombie on a process with queued threads. */
    method MarkZombies(p: Process, ghost slots: seq<Slot>)
      requires Queued(threads, slots) && Whole(owners) && p in owners
      modifies threads
      ensures Queued(threads, MarkZombie(slots, p.pid))
      ensures forall t :: t in threads ==> t.timeUsed == old(t.timeUsed)
    {
      AllInThreads(p, slots);
      SetStates(p, Zombie);
      ghost var z := MarkZombie(slots, p.pid);
      forall i: nat | i < QUEUE ensures Entry(threads, z, i) {
        assert old(Entry(threads, slots, i));
      }
    }

    lemma AllInThreads(p: Process, slots: seq<Slot>)
      requires Queued(threads, slots) && Whole(owners) && p in owners
      ensures forall t :: t in p.threads ==> t in threads
      ensures forall i :: 0 <= i < QUEUE && queue[i] != null ==> (queue[i] in p.threads <==> queue[i].owner.pid == p.pid)
    {
      forall t | t in p.threads ensures t in threads {
        assert t in queue[..];
        var i :| 0 <= i < QUEUE && queue[i] == t;
        assert Entry(threads, slots, i);
      }
      forall i | 0 <= i < QUEUE && queue[i] != null ensures queue[i] in p.threads <==> queue[i].owner.pid == p.pid {
        assert queue[..][i] == queue[i];
      }
    }

    /** The idle task sets can_schedule. */
    method SetOnline()
      requires Rep()
      modifies this`online, this`view
      ensures Rep() && view == old(view).(online := true)
    {
      online := true;
      view := view.(online := true);
    }

    /** sched_mk_process: null, or a process of one thread that is not queued yet; and the next pid. A
        failing stack allocation has used up a pid. */
    static method MakeProcess(pid: int, g: Grant) returns (p: Process?, next: int)
      ensures p != null <==> g.Granted()
      ensures next == if g.Numbered() then pid + 1 else pid
      ensures p != null ==>
                && fresh(p) && p.pid == pid && |p.threads| == 1 && fresh(p.threads[0])
                && p.threads[0].owner == p && p.threads[0].timeUsed == 0 && p.threads[0].state == Null
                && p.threads[0].r == ContextSwitch.InitialRegs(g.entry, g.page, g.cr3)
    {
      next := pid;
      if !g.named || g.entry == 0 {
        return null, next;
      }
      if !g.process || !g.thread || !g.list {
        return null, next;
      }
      p := new Process(pid);
      next := pid + 1;
      var r := ContextSwitch.PtRegs(0, g.cr3, 0, 0, 0, 0, 0, 0, 0, 0, 0, 0x8, 0x202);
      r := r.(eip := g.entry);
      if g.page == 0 {
        return null, next;
      }
      r := r.(esp := g.page + 4096, ebp := g.page + 4096);
      var t := new Thread(p, r);
      p.threads := [t];
    }

    /** sched_init. */
    constructor ()
      ensures Rep() && view == Sched(seq(QUEUE, i => Empty), 0, 0, 0, false) && owners == {} && threads == {}
      ensures fresh(queue)
    {
      queue := new Thread?[QUEUE](i => null);
      next, count, processes, online, current := 0, 0, 0, false, null;
      view := Sched(seq(QUEUE, i => Empty), 0, 0, 0, false);
      threads, owners := {}, {};
    }

    /** A new process of one thread, queued. */
    method Launch(pid: int, g: Grant) returns (p: Process, rc: int)
      requires g.Granted()
      requires Queued(threads, view.slots) && Whole(owners) && count == view.count == Occupied(view.slots)
      requires Accepts(view, 1) && forall q :: q in owners ==> q.pid != pid
      modifies this`count, this`processes, this`view, this`threads, this`owners, queue
      ensures Queued(threads, view.slots) && Whole(owners) && count == view.count == Occupied(view.slots)
      ensures view == old(view).(slots := Fill(old(view).slots, pid, 1), count := old(view).count + 1)
      ensures forall i :: 0 <= i < QUEUE && old(queue[i]) != null ==> queue[i] == old(queue[i])
      ensures rc == 0 && fresh(p) && p.pid == pid && |p.threads| == 1 && owners == old(owners) + {p}
      ensures fresh(p.threads[0])
      ensures forall t :: t in threads && t !in old(threads) ==> t == p.threads[0]
    {
      hide Fill, Occupied, WholeQueue, Queued, Shows;
      var made, _ := MakeProcess(pid, g);
      p := made;
      rc := AddProcess(p);
    }

    /** sched_start_idle, up to the switch to the idle task, when its two processes can be made. */
    method StartIdle(forIdle: Grant, forInit: Grant)
      requires Rep() && view == Sched(seq(QUEUE, i => Empty), 0, 0, 0, false) && owners == {} && threads == {}
      requires forIdle.Granted() && forInit.Granted()
      modifies this, queue
      ensures Rep() && view == Boot() && fresh(threads) && fresh(owners)
    {
      hide Fill, Occupied, FirstEmpty, Boot, WholeQueue, Entry;
      BootSlots();
      var idle, rc := Launch(0, forIdle);
      current := idle.threads[0];
      SlotsFree(view.slots);
      var kinit;
      kinit, rc := Launch(1, forInit);
    }
  }

  /** From boot on: idle goes online and yields, and the timer ticks `n` times. */
  method BootAndTick(forIdle: Grant, forInit: Grant, n: nat) returns (s: Scheduler)
    requires forIdle.Granted() && forInit.Granted()
    ensures fresh(s) && s.Rep() && Valid(s.view) && s.online && s.view == Ticked(n)
  {
    hide Scheduler.Rep, Boot, Exec, Valid, Ticked;
    s := new Scheduler();
    s.StartIdle(forIdle, forInit);
    BootValid();
    ExecValid(Boot(), Online);
    s.SetOnline();
    FirstTicks();
    s.Yield();
    for i := 0 to n
      invariant s.Rep() && s.online && Valid(s.view) && s.view == Ticked(i)
      invariant fresh(s.threads) && fresh(s.queue)
    {
      TickedNext(i);
      s.Tick();
    }
  }

  /** The scheduler `n` ticks after the idle task first yields. */
  ghost function Ticked(n: nat): (t: Sched)
    ensures Valid(t) && t.online
    decreases n
  {
    BootValid();
    if n == 0 then
      ExecValid(Boot(), Online);
      ExecValid(Exec(Boot(), Online), Event.Yield);
      Exec(Exec(Boot(), Online), Event.Yield)
    else
      ExecValid(Ticked(n - 1), Event.Tick);
      Exec(Ticked(n - 1), Event.Tick)
  }

  lemma FirstTicks()
    ensures Valid(Boot()) && Enabled(Boot(), Online) && Exec(Boot(), Online) == Boot().(online := true)
    ensures Valid(Exec(Boot(), Online)) && Enabled(Exec(Boot(), Online), Event.Yield)
    ensures Ticked(0) == Exec(Exec(Boot(), Online), Event.Yield)
  {
    BootValid();
    ExecValid(Boot(), Online);
  }

  lemma TickedNext(n: nat)
    ensures Enabled(Ticked(n), Event.Tick) && Ticked(n + 1) == Exec(Ticked(n), Event.Tick)
  {
  }
}
