/** What holds in every state the scheduler can reach, over all runs. */
module SchedRuns {
  import opened SchedState
  import opened SchedInv
  import opened Sched

  datatype Event =
    | TimerTick
    | SpawnTask(cpu: nat, slot: nat)
    | SpawnFailed
    | PickTask(cpu: nat, slot: nat)
    | GiveBack(cpu: nat)
    | YieldCpu(cpu: nat)
    | Sleep(cpu: nat, n: nat)
    | WaitOn(cpu: nat, id: nat, n: nat)
    | WakeFirst(q: WaitQ, slot: nat)
    | WakeEvery(q: WaitQ)
    | ExitTask(cpu: nat, code: nat)
    | KillTask(slot: nat, sig: nat)
    | ReapChild(cpu: nat, pid: int, slot: nat)
    | ParkForChild(cpu: nat, pid: int)

  /** The CPU executes a task, not its scheduler loop. */
  ghost predicate Busy(s: State, c: nat)
    requires Shape(s)
  {
    c < MAX_CPUS && IsSlot(s.cur[c]) && s.tasks[s.cur[c]].runCpu < MAX_CPUS
  }

  /** When an event can happen. */
  ghost predicate Enabled(s: State, e: Event)
    requires Shape(s)
  {
    match e
    case TimerTick => true
    case SpawnTask(c, k) => c < MAX_CPUS && s.cur[c] < MAX_TASKS && k < MAX_TASKS && FirstFree(s.tasks, k)
    case SpawnFailed => true
    case PickTask(c, k) => c < s.cpus && s.cur[c] == 0 && k < MAX_TASKS && Picks(s.runq[c], k)
    case GiveBack(c) => Busy(s, c)
    case YieldCpu(c) => Busy(s, c)
    case Sleep(c, n) => Busy(s, c)
    case WaitOn(c, id, n) => Busy(s, c)
    case WakeFirst(q, i) => i in Waiters(s, q) && forall j: nat | j in Waiters(s, q) :: i <= j
    case WakeEvery(q) => true
    case ExitTask(c, code) => Busy(s, c)
    case KillTask(i, sig) =>
      IsSlot(i) && s.tasks[i].used && s.tasks[i].state != Zombie && OffCpu(s, i) && s.tasks[i].runCpu < MAX_CPUS
    case ReapChild(c, pid, k) => Busy(s, c) && FirstZombie(s.tasks, s.tasks[s.cur[c]].tid, pid, k)
    case ParkForChild(c, pid) => Busy(s, c) && NoZombie(s.tasks, s.tasks[s.cur[c]].tid, pid)
  }

  ghost function Next(s: State, e: Event): State
    requires Shape(s) && Enabled(s, e)
  {
    match e
    case TimerTick => Tick(s)
    case SpawnTask(c, k) => Spawn(s, c, k)
    case SpawnFailed => s.(nextTid := s.nextTid + 1)
    case PickTask(c, k) => Run(s, c, k)
    case GiveBack(c) => SwitchBack(s, c)
    case YieldCpu(c) => Yield(s, c)
    case Sleep(c, n) => SleepTicks(s, c, n)
    case WaitOn(c, id, n) => WaitSleep(s, c, Shared(id), n)
    case WakeFirst(q, i) => Wake(s, {i})
    case WakeEvery(q) => Wake(s, Waiters(s, q))
    case ExitTask(c, code) => Exit(s, c, code)
    case KillTask(i, sig) => Terminate(s, i, sig)
    case ReapChild(c, pid, k) => Reap(s, k)
    case ParkForChild(c, pid) => WaitChild(s, c, pid)
  }

  ghost predicate Safe(s: State) { Inv(s) && ChildInv(s) }

  /** The state after initialisation. */
  ghost predicate Initial(s: State)
  {
    && Shape(s) && s.waiting == {} && s.nextTid == 1 && s.log == Log(map[], map[], map[])
    && s.tasks[0] == CLEARED.(used := true, idle := true, parentTid := -1, state := Runnable)
    && (forall i: nat | IsSlot(i) :: s.tasks[i] == CLEARED)
    && (forall c: nat | c < MAX_CPUS :: s.runq[c] == {} && s.cur[c] == 0)
  }

  lemma InitialIsSafe(s: State)
    requires Initial(s)
    ensures Safe(s)
  {
  }

  lemma SafeShape(s: State)
    requires Safe(s)
    ensures Shape(s)
  {
  }

  /** Every event keeps everything. */
  lemma EventKeeps(s: State, e: Event)
    requires Safe(s) && Enabled(s, e)
    ensures Safe(Next(s, e))
  {
    SafeShape(s);
    hide Inv, ChildInv, Wake, Spawn, Exit, Terminate, WaitChild, Tick, Reap, Run, SwitchBack, Yield, SleepTicks, WaitSleep;
    match e
    case TimerTick => TickKeeps(s); TickKeepsChildren(s);
    case SpawnTask(c, k) => SpawnKeeps(s, c, k); SpawnKeepsChildren(s, c, k);
    case SpawnFailed => TidSkipped(s);
    case PickTask(c, k) => RunKeeps(s, c, k); RunKeepsChildren(s, c, k);
    case GiveBack(c) => SwitchBackKeeps(s, c); SwitchBackKeepsChildren(s, c);
    case YieldCpu(c) => YieldKeeps(s, c); YieldKeepsChildren(s, c);
    case Sleep(c, n) => SleepTicksKeeps(s, c, n); SleepTicksKeepsChildren(s, c, n);
    case WaitOn(c, id, n) => WaitSleepKeeps(s, c, Shared(id), n); WaitSleepKeepsChildren(s, c, Shared(id), n);
    case WakeFirst(q, i) => WakeKeeps(s, {i}); WakeKeepsChildren(s, {i});
    case WakeEvery(q) => WakeKeeps(s, Waiters(s, q)); WakeKeepsChildren(s, Waiters(s, q));
    case ExitTask(c, code) => ExitKeeps(s, c, code); ExitZombie(s, c, code);
    case KillTask(i, sig) => TerminateKeeps(s, i, sig); TerminateZombie(s, i, sig);
    case ReapChild(c, pid, k) => ReapKeeps(s, k); ReapKeepsChildren(s, k);
    case ParkForChild(c, pid) => WaitChildKeeps(s, c, pid);
  }

  /** `run` leads from s to t, event by event. */
  ghost predicate Leads(s: State, run: seq<Event>, t: State)
    requires Shape(s)
    decreases |run|
  {
    if run == [] then t == s
    else Enabled(s, run[0]) && Shape(Next(s, run[0])) && Leads(Next(s, run[0]), run[1..], t)
  }

  /** Every reachable state is safe. */
  lemma {:induction false} ReachableIsSafe(s: State, run: seq<Event>, t: State)
    requires Safe(s) && Leads(s, run, t)
    ensures Safe(t)
    decreases |run|
  {
    if run != [] {
      EventKeeps(s, run[0]);
      ReachableIsSafe(Next(s, run[0]), run[1..], t);
    }
  }

  /** A status handed out is never handed out again nor changed, and the exit code behind it stays. */
  lemma {:induction false} StatusOnce(s: State, run: seq<Event>, t: State, tid: nat)
    requires Safe(s) && Leads(s, run, t) && tid in s.log.reaped
    ensures tid in t.log.reaped && t.log.reaped[tid] == s.log.reaped[tid]
    ensures tid in s.log.exited && s.log.reaped[tid] == StatusOf(s.log.exited[tid])
    ensures forall i: nat | IsSlot(i) && Shape(t) && t.tasks[i].used :: t.tasks[i].tid != tid
    decreases |run|
  {
    assert ReapOk(s, tid);
    if run == [] {
      forall i: nat | IsSlot(i) && t.tasks[i].used
        ensures t.tasks[i].tid != tid
      {
        assert ExitOk(s, i);
      }
    } else {
      EventKeeps(s, run[0]);
      ReapedStays(s, run[0], tid);
      StatusOnce(Next(s, run[0]), run[1..], t, tid);
    }
  }

  lemma ReapedStays(s: State, e: Event, tid: nat)
    requires Safe(s) && Enabled(s, e) && tid in s.log.reaped
    ensures tid in Next(s, e).log.reaped && Next(s, e).log.reaped[tid] == s.log.reaped[tid]
  {
    if e.ReapChild? {
      assert ExitOk(s, e.slot);
    }
  }

  /** The scheduler's promises, read off any reachable state for a slot in use. */
  lemma ReachableSlot(s: State, run: seq<Event>, t: State, i: nat)
    requires Initial(s) && Leads(s, run, t) && IsSlot(i)
    ensures Shape(t)
    ensures t.tasks[i].used && t.tasks[i].state == Runnable <==> exists c: nat :: c < MAX_CPUS && i in t.runq[c]
    ensures forall c: nat | c < MAX_CPUS && i in t.runq[c] :: c == t.tasks[i].runCpu
    ensures t.tasks[i].used && t.tasks[i].state == Running ==> t.tasks[i].runCpu < MAX_CPUS && t.cur[t.tasks[i].runCpu] == i
    ensures forall q: WaitQ :: (q, i) in t.waiting <==> t.tasks[i].used && t.tasks[i].waitq == Some(q)
    ensures t.tasks[i].waitq.Some? ==> t.tasks[i].state == Blocked || t.tasks[i].state == Sleeping
    ensures t.tasks[i].wakeTick == 0 || t.tasks[i].wakeTick > t.ticks
  {
    InitialIsSafe(s);
    ReachableIsSafe(s, run, t);
    SlotFacts(t, i);
    if t.tasks[i].used && t.tasks[i].state == Runnable {
      assert i in t.runq[t.tasks[i].runCpu];
    }
    forall c: nat | c < MAX_CPUS && i in t.runq[c]
      ensures t.tasks[i].used && t.tasks[i].state == Runnable && t.tasks[i].runCpu == c
    {
      assert QueueOk(t, c, i);
    }
    forall q: WaitQ
      ensures (q, i) in t.waiting <==> t.tasks[i].used && t.tasks[i].waitq == Some(q)
    {
      assert WaitOk(t, q, i);
    }
  }

  lemma NotMissed(t: State, i: nat, k: nat)
    requires Inv(t) && ChildInv(t) && IsSlot(i) && IsSlot(k) && (ChildOf(i), i) in t.waiting
    ensures i in t.log.waitFor
    ensures t.log.waitFor[i] == WAITPID_ANY || 0 <= t.log.waitFor[i] < 0x1_0000_0000 ==>
      !(AskedFor(t, k, t.tasks[i].tid, t.log.waitFor[i]) && t.tasks[k].state == Zombie)
  {
    SlotFacts(t, i);
    SlotFacts(t, k);
    assert NoMissed(t, i, k);
  }

  /** In no reachable state does a task wait for a child that has already exited. */
  lemma NoExitMissed(s: State, run: seq<Event>, t: State, i: nat, k: nat)
    requires Initial(s) && Leads(s, run, t) && IsSlot(i) && IsSlot(k)
    ensures Shape(t)
    ensures (ChildOf(i), i) in t.waiting ==>
      i in t.log.waitFor && (t.log.waitFor[i] == WAITPID_ANY || 0 <= t.log.waitFor[i] < 0x1_0000_0000 ==>
        !(AskedFor(t, k, t.tasks[i].tid, t.log.waitFor[i]) && t.tasks[k].state == Zombie))
    ensures forall j: nat | (ChildOf(i), j) in t.waiting :: j == i
  {
    InitialIsSafe(s);
    ReachableIsSafe(s, run, t);
    hide ReapOk, ExitOk;
    if (ChildOf(i), i) in t.waiting {
      NotMissed(t, i, k);
    }
    forall j: nat | (ChildOf(i), j) in t.waiting
      ensures j == i
    {
      assert WaitOk(t, ChildOf(i), j) && TaskOk(t, j);
    }
  }
}
