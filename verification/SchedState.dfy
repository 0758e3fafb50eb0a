/** The scheduler as a transition system: every section under the scheduler lock is one step on this state. */
module SchedState {

  const MAX_TASKS: nat := 64
  const MAX_CPUS: nat := 32
  const WAITPID_ANY := -1
  const WAITPID_NO_CHILD := -1
  const WAITPID_BLOCKED := -2

  datatype Option<T> = None | Some(value: T)

  datatype TaskState = Unused | Runnable | Running | Sleeping | Blocked | Zombie

  /** Which wait queue: the child queue of a slot, or one owned by another part of the kernel. */
  datatype WaitQ = ChildOf(slot: nat) | Shared(id: nat)

  datatype Task = Task(
    used: bool,
    idle: bool,
    tid: nat,
    parentTid: int,
    state: TaskState,
    wakeTick: nat,
    runCpu: nat,
    waitq: Option<WaitQ>,
    exitCode: nat)

  const CLEARED := Task(false, false, 0, 0, Unused, 0, 0, None, 0)

  /** What happened so far: exit codes by tid, statuses handed out by tid, and the pid each parked waitpid asks for, by slot. */
  datatype Log = Log(exited: map<nat, nat>, reaped: map<nat, nat>, waitFor: map<nat, int>)

  datatype State = State(
    tasks: seq<Task>,
    runq: seq<set<nat>>,
    cur: seq<nat>,
    waiting: set<(WaitQ, nat)>,
    ticks: nat,
    nextTid: nat,
    spawnRr: nat,
    cpus: nat,
    log: Log)

  // ---------- invariant ----------

  ghost predicate Shape(s: State)
  {
    |s.tasks| == MAX_TASKS && |s.runq| == MAX_CPUS && |s.cur| == MAX_CPUS && 0 < s.cpus <= MAX_CPUS
  }

  predicate IsSlot(i: nat) { 0 < i < MAX_TASKS }

  /** A task is runnable exactly when it is queued, and then only in the run queue of its own CPU. */
  ghost predicate QueueOk(s: State, c: nat, i: nat)
    requires Shape(s)
  {
    c < MAX_CPUS ==>
      (i in s.runq[c] <==> IsSlot(i) && s.tasks[i].used && s.tasks[i].state == Runnable && s.tasks[i].runCpu == c)
  }

  /** A task waits in queue q exactly when its wait-queue pointer is q. */
  ghost predicate WaitOk(s: State, q: WaitQ, i: nat)
    requires Shape(s)
  {
    (q, i) in s.waiting <==> IsSlot(i) && s.tasks[i].used && s.tasks[i].waitq == Some(q)
  }

  ghost predicate TaskOk(s: State, i: nat)
    requires Shape(s) && IsSlot(i)
  {
    var t := s.tasks[i];
    if t.used then
      && !t.idle && 0 < t.tid < s.nextTid && t.state != Unused
      && t.runCpu < s.cpus
      && (t.waitq.Some? ==> t.state == Blocked || t.state == Sleeping)
      && (t.state == Blocked ==> t.waitq.Some?)
      && (t.waitq.Some? && t.waitq.value.ChildOf? ==> t.waitq.value.slot == i)
      && (t.state == Sleeping ==> t.wakeTick != 0)
      && (t.state != Sleeping && t.state != Blocked ==> t.wakeTick == 0)
      && (t.wakeTick != 0 ==> t.wakeTick > s.ticks)
      && (t.state == Running ==> s.cur[t.runCpu] == i)
    else t == CLEARED
  }

  /** The task a CPU executes: in use, its own, and not exited. */
  ghost predicate CurOk(s: State, c: nat)
    requires Shape(s) && c < MAX_CPUS
  {
    s.cur[c] != 0 ==>
      IsSlot(s.cur[c]) && s.tasks[s.cur[c]].used && s.tasks[s.cur[c]].runCpu == c && s.tasks[s.cur[c]].state != Zombie
  }

  ghost predicate TidsDiffer(s: State, i: nat, j: nat)
    requires Shape(s) && i < MAX_TASKS && j < MAX_TASKS
  {
    s.tasks[i].used && s.tasks[j].used && i != j ==> s.tasks[i].tid != s.tasks[j].tid
  }

  ghost predicate IdleOk(s: State)
    requires Shape(s)
  {
    var t := s.tasks[0];
    t.used && t.idle && t.tid == 0 && t.state == Runnable && t.waitq == None && t.wakeTick == 0 && t.parentTid == -1
  }

  /** The invariant of the scheduler proper. */
  ghost predicate Inv(s: State)
  {
    && Shape(s) && IdleOk(s) && 0 < s.nextTid
    && (forall i: nat | IsSlot(i) :: TaskOk(s, i))
    && (forall c: nat | c < MAX_CPUS :: CurOk(s, c))
    && (forall c: nat, i: nat :: QueueOk(s, c, i))
    && (forall q: WaitQ, i: nat :: WaitOk(s, q, i))
    && (forall i: nat, j: nat | i < MAX_TASKS && j < MAX_TASKS :: TidsDiffer(s, i, j))
  }

  // ---------- children and exit statuses ----------

  /** Slot k holds a child that a waitpid of the parent for `pid` asks about. */
  predicate IsChildOf(t: Task, parentTid: int, pid: int)
  {
    t.used && !t.idle && t.parentTid == parentTid && (pid == WAITPID_ANY || t.tid == pid % 0x1_0000_0000)
  }

  function StatusOf(exitCode: nat): nat { exitCode % 0x100 * 0x100 }

  /** While slot i sits in its child queue it is there because of a waitpid, and none of the children asked for has exited. */
  ghost predicate NoMissed(s: State, i: nat, k: nat)
    requires Shape(s) && IsSlot(i) && IsSlot(k)
  {
    s.tasks[i].used && s.tasks[i].waitq == Some(ChildOf(i)) ==>
      i in s.log.waitFor && !(IsChildOf(s.tasks[k], s.tasks[i].tid, s.log.waitFor[i]) && s.tasks[k].state == Zombie)
  }

  /** An exited task still in its slot has exited once, with the code in the slot, and was not reaped. */
  ghost predicate ExitOk(s: State, i: nat)
    requires Shape(s) && IsSlot(i)
  {
    s.tasks[i].used ==>
      && s.tasks[i].tid !in s.log.reaped
      && (s.tasks[i].state == Zombie <==> s.tasks[i].tid in s.log.exited)
      && (s.tasks[i].state == Zombie ==> s.log.exited[s.tasks[i].tid] == s.tasks[i].exitCode)
  }

  /** A status handed out belongs to an exit, and says with which code. */
  ghost predicate ReapOk(s: State, tid: nat)
  {
    tid in s.log.reaped ==> tid < s.nextTid && tid in s.log.exited && s.log.reaped[tid] == StatusOf(s.log.exited[tid])
  }

  ghost predicate ChildInv(s: State)
    requires Shape(s)
  {
    && (forall i: nat, k: nat | IsSlot(i) && IsSlot(k) :: NoMissed(s, i, k))
    && (forall i: nat | IsSlot(i) :: ExitOk(s, i))
    && (forall tid: nat :: ReapOk(s, tid))
    && (forall tid: nat | tid in s.log.exited :: tid < s.nextTid)
  }

  // ---------- building blocks of the steps ----------

  /** Waking finds the task asleep or blocked. */
  predicate Wakeable(t: Task) { t.used && !t.idle && (t.state == Blocked || t.state == Sleeping) }

  function Woken(t: Task): Task { t.(waitq := None, wakeTick := 0, state := Runnable) }

  /** The slots in w that waking puts into the run queue of CPU `c`. */
  ghost function WokenOn(s: State, w: set<nat>, c: nat): (r: set<nat>)
    requires |s.tasks| == MAX_TASKS
    ensures forall i: nat :: i in r <==> i in w && IsSlot(i) && Wakeable(s.tasks[i]) && s.tasks[i].runCpu == c
  {
    set i: nat | i in w && IsSlot(i) && Wakeable(s.tasks[i]) && s.tasks[i].runCpu == c
  }

  /** All slots in w that can be woken are: off their wait queue and into the run queue of their CPU. */
  ghost function Wake(s: State, w: set<nat>): (r: State)
    requires Shape(s)
    ensures Shape(r)
  {
    s.(
      tasks := seq(MAX_TASKS, i requires 0 <= i < MAX_TASKS => if i in w && Wakeable(s.tasks[i]) then Woken(s.tasks[i]) else s.tasks[i]),
      runq := seq(MAX_CPUS, c requires 0 <= c < MAX_CPUS =>
        s.runq[c] + WokenOn(s, w, c)),
      waiting := set p | p in s.waiting && !(p.1 in w && p.1 < MAX_TASKS && Wakeable(s.tasks[p.1])))
  }

  /** The slots in a wait queue. */
  ghost function Waiters(s: State, q: WaitQ): set<nat>
  {
    set p | p in s.waiting && p.0 == q :: p.1
  }

  /** The slots whose time has come. */
  ghost function Due(s: State, now: nat): set<nat>
    requires Shape(s)
  {
    set i: nat | i < MAX_TASKS && Wakeable(s.tasks[i]) && 0 < s.tasks[i].wakeTick <= now
  }

  function Detached(s: State, i: nat): set<(WaitQ, nat)>
    requires i < |s.tasks|
  {
    if s.tasks[i].waitq.Some? then s.waiting - {(s.tasks[i].waitq.value, i)} else s.waiting
  }

  function Enqueued(runq: seq<set<nat>>, c: nat, i: nat): seq<set<nat>>
    requires c < |runq|
  {
    runq[c := runq[c] + {i}]
  }

  function Dequeued(runq: seq<set<nat>>, c: nat, i: nat): seq<set<nat>>
    requires c < |runq|
  {
    runq[c := runq[c] - {i}]
  }

  // ---------- the steps ----------

  /** A timer tick: time advances, and every task whose time has come is woken. */
  ghost function Tick(s: State): State
    requires Shape(s)
  {
    var m := s.(ticks := s.ticks + 1);
    Wake(m, Due(m, m.ticks))
  }

  /** Slot k is the first one not in use. */
  predicate FirstFree(tasks: seq<Task>, k: nat)
    requires k < |tasks|
  {
    k > 0 && !tasks[k].used && forall j :: 0 < j < k ==> tasks[j].used
  }

  function Spawned(s: State, parent: Task): Task
    requires 0 < s.cpus
  {
    CLEARED.(used := true, tid := s.nextTid, parentTid := parent.tid, state := Runnable, runCpu := s.spawnRr % s.cpus)
  }

  /** A new task in slot k, child of the task that CPU `c` executes. */
  function Spawn(s: State, c: nat, k: nat): State
    requires |s.tasks| == MAX_TASKS && |s.runq| == MAX_CPUS && 0 < s.cpus <= MAX_CPUS && c < |s.cur| && s.cur[c] < MAX_TASKS && k < MAX_TASKS
  {
    var t := Spawned(s, s.tasks[s.cur[c]]);
    s.(tasks := s.tasks[k := t], runq := Enqueued(s.runq, t.runCpu, k), nextTid := s.nextTid + 1, spawnRr := s.spawnRr + 1)
  }

  /** CPU `c` starts executing slot k, taken from its run queue; no k means it idles. */
  function Run(s: State, c: nat, k: nat): State
    requires k < |s.tasks| && c < |s.runq| && c < |s.cur|
  {
    if k == 0 then s.(cur := s.cur[c := 0])
    else s.(
      cur := s.cur[c := k],
      tasks := s.tasks[k := s.tasks[k].(state := Running, runCpu := c)],
      runq := Dequeued(s.runq, c, k))
  }

  /** The scheduler picks the lowest slot queued on the CPU. */
  predicate Picks(q: set<nat>, k: nat)
  {
    if k == 0 then q == {} else k in q && forall j | j in q :: k <= j
  }

  /** The task of CPU `c` gives the CPU back to the scheduler. */
  function SwitchBack(s: State, c: nat): State
    requires c < |s.runq| && c < |s.cur| && s.cur[c] < |s.tasks|
  {
    var i := s.cur[c];
    if s.tasks[i].state == Running then
      s.(cur := s.cur[c := 0], tasks := s.tasks[i := s.tasks[i].(state := Runnable)], runq := Enqueued(s.runq, c, i))
    else s.(cur := s.cur[c := 0])
  }

  /** The task of CPU `c` offers the CPU to others. */
  function Yield(s: State, c: nat): State
    requires c < |s.runq| && c < |s.cur| && s.cur[c] < |s.tasks|
  {
    var i := s.cur[c];
    if s.tasks[i].state == Running then
      s.(tasks := s.tasks[i := s.tasks[i].(state := Runnable, runCpu := c)], runq := Enqueued(s.runq, c, i))
    else s
  }

  /** The task of CPU `c` sleeps for `n` ticks, but at least one. */
  function SleepTicks(s: State, c: nat, n: nat): State
    requires c < |s.cur| && s.cur[c] < |s.tasks| && s.tasks[s.cur[c]].runCpu < |s.runq|
  {
    var i := s.cur[c];
    if s.tasks[i].idle then s
    else s.(
      tasks := s.tasks[i := s.tasks[i].(wakeTick := s.ticks + (if n == 0 then 1 else n), state := Sleeping)],
      runq := Dequeued(s.runq, s.tasks[i].runCpu, i))
  }

  /** The task of CPU `c` goes to wait in queue q, with a timeout if `n` is not zero. */
  function WaitSleep(s: State, c: nat, q: WaitQ, n: nat): State
    requires c < |s.cur| && s.cur[c] < |s.tasks| && s.tasks[s.cur[c]].runCpu < |s.runq|
  {
    var i := s.cur[c];
    if s.tasks[i].idle then s
    else s.(
      tasks := s.tasks[i := s.tasks[i].(waitq := Some(q), state := Blocked, wakeTick := if n == 0 then 0 else s.ticks + n)],
      waiting := Detached(s, i) + {(q, i)},
      runq := Dequeued(s.runq, s.tasks[i].runCpu, i))
  }

  /** Slot i leaves as a zombie with the given code. */
  function MadeZombie(s: State, i: nat, code: nat): State
    requires i < |s.tasks| && s.tasks[i].runCpu < |s.runq|
  {
    s.(
      tasks := s.tasks[i := s.tasks[i].(waitq := None, exitCode := code, state := Zombie, wakeTick := 0)],
      waiting := Detached(s, i),
      runq := Dequeued(s.runq, s.tasks[i].runCpu, i),
      log := s.log.(exited := s.log.exited[s.tasks[i].tid := code]))
  }

  /** Slot p holds the task with this tid. */
  predicate HasTid(tasks: seq<Task>, p: nat, tid: int)
  {
    p < |tasks| && tasks[p].used && tasks[p].tid == tid
  }

  /** The slots that wait for a child of the task with this tid. */
  ghost function ParentWaiters(s: State, parentTid: int): set<nat>
    requires Shape(s)
  {
    set p | p in s.waiting && p.0.ChildOf? && HasTid(s.tasks, p.0.slot, parentTid) :: p.1
  }

  /** The task of CPU `c` exits: it becomes a zombie, its parent's waiters are woken, and the CPU returns to the scheduler. */
  ghost function Exit(s: State, c: nat, code: nat): State
    requires Shape(s) && c < MAX_CPUS && IsSlot(s.cur[c]) && s.tasks[s.cur[c]].runCpu < MAX_CPUS
  {
    var i := s.cur[c];
    var z := MadeZombie(s, i, code).(cur := s.cur[c := 0]);
    Wake(z, ParentWaiters(z, s.tasks[i].parentTid))
  }

  /** A signal terminates the task in slot i, which no CPU executes. */
  ghost function Terminate(s: State, i: nat, sig: nat): State
    requires Shape(s) && IsSlot(i) && s.tasks[i].runCpu < MAX_CPUS
  {
    var z := MadeZombie(s, i, 128 + sig % 0x80);
    Wake(z, ParentWaiters(z, s.tasks[i].parentTid))
  }

  /** Slot k's zombie is reaped. */
  function Reap(s: State, k: nat): State
    requires k < |s.tasks|
  {
    s.(
      tasks := s.tasks[k := CLEARED],
      log := s.log.(reaped := s.log.reaped[s.tasks[k].tid := StatusOf(s.tasks[k].exitCode)]))
  }

  /** Slot k is the first zombie among the children asked for. */
  predicate FirstZombie(tasks: seq<Task>, parentTid: int, pid: int, k: nat)
  {
    && 0 < k < |tasks| && IsChildOf(tasks[k], parentTid, pid) && tasks[k].state == Zombie
    && forall j :: 0 < j < k ==> !(IsChildOf(tasks[j], parentTid, pid) && tasks[j].state == Zombie)
  }

  predicate NoZombie(tasks: seq<Task>, parentTid: int, pid: int)
  {
    forall j :: 0 < j < |tasks| ==> !(IsChildOf(tasks[j], parentTid, pid) && tasks[j].state == Zombie)
  }

  predicate NoChild(tasks: seq<Task>, parentTid: int, pid: int)
  {
    forall j :: 0 < j < |tasks| ==> !IsChildOf(tasks[j], parentTid, pid)
  }

  /** The task of CPU `c` parks in its own child queue until a child exits. */
  function WaitChild(s: State, c: nat, pid: int): State
    requires c < |s.cur| && s.cur[c] < |s.tasks| && s.tasks[s.cur[c]].runCpu < |s.runq|
  {
    var i := s.cur[c];
    WaitSleep(s, c, ChildOf(i), 0).(log := s.log.(waitFor := s.log.waitFor[i := pid]))
  }
}
