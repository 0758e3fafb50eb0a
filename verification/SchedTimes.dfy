/** How long tasks sleep and wait, and that no task is lost, over all runs of the scheduler. */
module SchedTimes {
  import opened SchedState
  import opened SchedInv
  import opened Sched
  import opened SchedRuns

  // ---------- parked and ready ----------

  /** Slot i is asleep or blocked, in no run queue, waits in q if anywhere, and has until tick `until` to go; 0 stands for no limit. */
  ghost predicate Parked(s: State, i: nat, st: TaskState, q: Option<WaitQ>, until: nat)
  {
    && Shape(s) && IsSlot(i) && s.tasks[i].used && s.tasks[i].state == st && (st == Sleeping || st == Blocked)
    && s.tasks[i].waitq == q && s.tasks[i].wakeTick == until && (until != 0 ==> s.ticks < until)
    && forall c: nat | c < MAX_CPUS :: i !in s.runq[c]
  }

  /** Slot i can be executed: it is in the run queue of its processor and waits nowhere. */
  ghost predicate Ready(s: State, i: nat)
  {
    && Shape(s) && IsSlot(i) && s.tasks[i].used && s.tasks[i].state == Runnable && s.tasks[i].runCpu < s.cpus
    && s.tasks[i].waitq == None && i in s.runq[s.tasks[i].runCpu] && forall q: WaitQ :: (q, i) !in s.waiting
  }

  /** A woken task is ready, and every other slot is as it was. */
  lemma WokenIsReady(s: State, w: set<nat>, i: nat)
    requires Safe(s) && i in w && IsSlot(i) && Wakeable(s.tasks[i])
    ensures Ready(Wake(s, w), i)
    ensures forall j: nat | j < MAX_TASKS && j !in w :: Wake(s, w).tasks[j] == s.tasks[j]
  {
    hide ChildInv, Wake;
    WakeKeeps(s, w);
    SlotFacts(s, i);
    SlotFacts(Wake(s, w), i);
    WokenState(s, w, i);
    forall j: nat | j < MAX_TASKS && j !in w
      ensures Wake(s, w).tasks[j] == s.tasks[j]
    {
      WakeLeaves(s, w, j);
    }
  }

  lemma WokenState(s: State, w: set<nat>, i: nat)
    requires Shape(s) && i in w && IsSlot(i) && Wakeable(s.tasks[i])
    ensures var t := Wake(s, w).tasks[i];
      t.used && t.state == Runnable && t.waitq == None && t.runCpu == s.tasks[i].runCpu
  {
  }

  /** The event does not kill the task in slot i, wakes no queue it waits in, and is no call of the task itself. */
  ghost predicate LeavesAlone(s: State, e: Event, i: nat, q: Option<WaitQ>)
    requires Shape(s)
  {
    match e
    case KillTask(k, _) => k != i
    case WakeFirst(p, k) => q == Some(p) ==> k != i
    case WakeEvery(p) => q != Some(p)
    case Sleep(c, _) => c < MAX_CPUS ==> s.cur[c] != i
    case WaitOn(c, _, _) => c < MAX_CPUS ==> s.cur[c] != i
    case ExitTask(c, _) => c < MAX_CPUS ==> s.cur[c] != i
    case ParkForChild(c, _) => c < MAX_CPUS ==> s.cur[c] != i
    case _ => true
  }

  /** A tick advances time by one, and nothing else advances it. */
  lemma TimeStep(s: State, e: Event)
    requires Shape(s) && Enabled(s, e)
    ensures Next(s, e).ticks == s.ticks + if e.TimerTick? then 1 else 0
  {
  }

  /** A tick keeps a parked task parked while it has time to go, and readies it when its time has come. */
  lemma TickParked(s: State, i: nat, st: TaskState, q: Option<WaitQ>, until: nat)
    requires Safe(s) && Parked(s, i, st, q, until)
    ensures until == 0 || s.ticks + 1 < until ==> Parked(Tick(s), i, st, q, until)
    ensures until != 0 && s.ticks + 1 == until ==> Ready(Tick(s), i)
  {
    hide ChildInv, Wake;
    TickKeeps(s);
    SlotFacts(s, i);
    SlotFacts(Tick(s), i);
    var m := s.(ticks := s.ticks + 1);
    var w := Due(m, m.ticks);
    if i in w {
      WokenState(m, w, i);
    } else {
      WakeLeaves(m, w, i);
    }
  }

  /** Waking others keeps a parked task parked. */
  lemma WakeParked(s: State, w: set<nat>, i: nat, st: TaskState, q: Option<WaitQ>, until: nat)
    requires Inv(s) && Parked(s, i, st, q, until) && i !in w
    ensures Parked(Wake(s, w), i, st, q, until)
  {
    hide Wake;
    WakeKeeps(s, w);
    WakeLeaves(s, w, i);
    SlotFacts(Wake(s, w), i);
    WakeTime(s, w);
  }

  lemma WakeTime(s: State, w: set<nat>)
    requires Shape(s)
    ensures Wake(s, w).ticks == s.ticks
  {
  }

  /** A task that became a zombie wakes no one who is parked outside a child queue. */
  lemma ZombieParked(s: State, z: State, parentTid: int, i: nat, st: TaskState, q: Option<WaitQ>, until: nat)
    requires Inv(z) && Parked(z, i, st, q, until) && (q.Some? ==> q.value.Shared?)
    ensures Parked(Wake(z, ParentWaiters(z, parentTid)), i, st, q, until)
  {
    hide Wake;
    SlotFacts(z, i);
    WakeParked(z, ParentWaiters(z, parentTid), i, st, q, until);
  }

  /** An event that leaves a parked task alone keeps it parked while it has time to go; the tick at which its time has come readies it. */
  lemma ParkedStep(s: State, e: Event, i: nat, st: TaskState, q: Option<WaitQ>, until: nat)
    requires Safe(s) && Enabled(s, e) && Parked(s, i, st, q, until) && (q.Some? ==> q.value.Shared?) && LeavesAlone(s, e, i, q)
    ensures until == 0 || Next(s, e).ticks < until ==> Parked(Next(s, e), i, st, q, until)
    ensures until != 0 && Next(s, e).ticks == until ==> Ready(Next(s, e), i)
  {
    hide ChildInv, Wake, Tick, Exit, Terminate, ParentWaiters;
    TimeStep(s, e);
    SlotFacts(s, i);
    match e
    case TimerTick => TickParked(s, i, st, q, until);
    case WakeFirst(p, k) => WakeParked(s, {k}, i, st, q, until);
    case WakeEvery(p) => WakeParked(s, Waiters(s, p), i, st, q, until);
    case ExitTask(c, code) => ExitParked(s, c, code, i, st, q, until);
    case KillTask(k, sig) => KillParked(s, k, sig, i, st, q, until);
    case ReapChild(c, pid, k) => SlotFacts(s, k);
    case _ =>
  }

  lemma ExitParked(s: State, c: nat, code: nat, i: nat, st: TaskState, q: Option<WaitQ>, until: nat)
    requires Safe(s) && Busy(s, c) && s.cur[c] != i && Parked(s, i, st, q, until) && (q.Some? ==> q.value.Shared?)
    ensures Parked(Exit(s, c, code), i, st, q, until)
  {
    hide Wake, ParentWaiters;
    ExitZombie(s, c, code);
    ZombieParked(s, MadeZombie(s, s.cur[c], code).(cur := s.cur[c := 0]), s.tasks[s.cur[c]].parentTid, i, st, q, until);
  }

  lemma KillParked(s: State, k: nat, sig: nat, i: nat, st: TaskState, q: Option<WaitQ>, until: nat)
    requires Safe(s) && IsSlot(k) && s.tasks[k].used && s.tasks[k].state != Zombie && OffCpu(s, k) && k != i
    requires s.tasks[k].runCpu < MAX_CPUS && Parked(s, i, st, q, until) && (q.Some? ==> q.value.Shared?)
    ensures Parked(Terminate(s, k, sig), i, st, q, until)
  {
    hide Wake, ParentWaiters;
    TerminateZombie(s, k, sig);
    ZombieParked(s, MadeZombie(s, k, 128 + sig % 0x80), s.tasks[k].parentTid, i, st, q, until);
  }

  // ---------- runs ----------

  ghost predicate RunLeavesAlone(s: State, run: seq<Event>, i: nat, q: Option<WaitQ>)
    requires Shape(s)
    decreases |run|
  {
    run == [] || (LeavesAlone(s, run[0], i, q) && (Enabled(s, run[0]) && Shape(Next(s, run[0])) ==> RunLeavesAlone(Next(s, run[0]), run[1..], i, q)))
  }

  lemma {:induction false} TimeGoesOn(s: State, run: seq<Event>, t: State)
    requires Shape(s) && Leads(s, run, t)
    ensures s.ticks <= t.ticks
    decreases |run|
  {
    if run != [] {
      TimeStep(s, run[0]);
      TimeGoesOn(Next(s, run[0]), run[1..], t);
    }
  }

  /** A parked task that is left alone stays parked for as long as it has time to go. */
  lemma {:induction false} StaysParked(s: State, run: seq<Event>, t: State, i: nat, st: TaskState, q: Option<WaitQ>, until: nat)
    requires Safe(s) && Leads(s, run, t) && RunLeavesAlone(s, run, i, q)
    requires Parked(s, i, st, q, until) && (q.Some? ==> q.value.Shared?) && (until != 0 ==> t.ticks < until)
    ensures Safe(t) && Parked(t, i, st, q, until)
    decreases |run|
  {
    hide Inv, ChildInv, Parked, Next, Enabled;
    if run != [] {
      SafeShape(s);
      var r := Next(s, run[0]);
      ParkedStep(s, run[0], i, st, q, until);
      EventKeeps(s, run[0]);
      TimeGoesOn(r, run[1..], t);
      StaysParked(r, run[1..], t, i, st, q, until);
    }
  }

  /** A task that goes to sleep for n ticks at tick T sleeps, in no run queue, for as long as the tick count is below T + n,
      or T + 1 if n is 0, and is ready once the tick to that count is taken. */
  lemma SleepLasts(s: State, c: nat, n: nat, run: seq<Event>, t: State)
    requires Safe(s) && Enabled(s, Sleep(c, n)) && (s.tasks[s.cur[c]].state == Running || s.tasks[s.cur[c]].state == Runnable)
    requires Shape(Next(s, Sleep(c, n))) && Leads(Next(s, Sleep(c, n)), run, t)
    requires RunLeavesAlone(Next(s, Sleep(c, n)), run, s.cur[c], None)
    ensures var i, until := s.cur[c], s.ticks + (if n == 0 then 1 else n);
      && (t.ticks < until ==> Parked(t, i, Sleeping, None, until))
      && (t.ticks + 1 == until ==> Shape(t) && Ready(Next(t, TimerTick), i))
  {
    hide ChildInv;
    var i, until, r := s.cur[c], s.ticks + (if n == 0 then 1 else n), Next(s, Sleep(c, n));
    EventKeeps(s, Sleep(c, n));
    SlotFacts(s, i);
    SlotFacts(r, i);
    if t.ticks < until {
      StaysParked(r, run, t, i, Sleeping, None, until);
      TickParked(t, i, Sleeping, None, until);
    }
  }

  /** The same for a wait with a timeout that nobody ends; a wait without one goes on until somebody does. */
  lemma WaitLasts(s: State, c: nat, id: nat, n: nat, run: seq<Event>, t: State)
    requires Safe(s) && Enabled(s, WaitOn(c, id, n))
    requires Shape(Next(s, WaitOn(c, id, n))) && Leads(Next(s, WaitOn(c, id, n)), run, t)
    requires RunLeavesAlone(Next(s, WaitOn(c, id, n)), run, s.cur[c], Some(Shared(id)))
    ensures var i, until := s.cur[c], s.ticks + n;
      && (n == 0 ==> Parked(t, i, Blocked, Some(Shared(id)), 0))
      && (n > 0 && t.ticks < until ==> Parked(t, i, Blocked, Some(Shared(id)), until))
      && (n > 0 && t.ticks + 1 == until ==> Shape(t) && Ready(Next(t, TimerTick), i))
  {
    hide ChildInv;
    var i, until, r := s.cur[c], (if n == 0 then 0 else s.ticks + n), Next(s, WaitOn(c, id, n));
    EventKeeps(s, WaitOn(c, id, n));
    SlotFacts(s, i);
    SlotFacts(r, i);
    if n == 0 || t.ticks < until {
      StaysParked(r, run, t, i, Blocked, Some(Shared(id)), until);
      TickParked(t, i, Blocked, Some(Shared(id)), until);
    }
  }

  /** A task that runs or can run goes on doing so, unless it stops itself or is killed. */
  lemma KeepsGoing(s: State, e: Event, i: nat)
    requires Safe(s) && Enabled(s, e) && LeavesAlone(s, e, i, None)
    requires IsSlot(i) && s.tasks[i].used && (s.tasks[i].state == Running || s.tasks[i].state == Runnable)
    ensures Shape(Next(s, e))
    ensures var t := Next(s, e).tasks[i];
      t.used && t.tid == s.tasks[i].tid && (t.state == Running || t.state == Runnable)
  {
    hide ChildInv, ParentWaiters, Waiters;
    SlotFacts(s, i);
  }
}
