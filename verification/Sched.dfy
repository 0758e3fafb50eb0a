/** The scheduler's operations on its tables, each shown to be one step of the transition system. */
module Sched {
  import opened SchedState
  import opened SchedInv

  /** What waking relies on: queues and CPUs are in range, and wait-queue bits match wait-queue pointers. */
  ghost predicate Tame(s: State)
  {
    && Shape(s)
    && (forall i: nat | IsSlot(i) && s.tasks[i].used :: s.tasks[i].runCpu < s.cpus)
    && (forall q: WaitQ, i: nat :: WaitOk(s, q, i))
    && s.tasks[0].idle
  }

  lemma InvIsTame(s: State)
    requires Inv(s)
    ensures Tame(s) && Tame(s.(ticks := s.ticks + 1))
  {
    var r := s.(ticks := s.ticks + 1);
    forall i: nat | IsSlot(i) && s.tasks[i].used
      ensures s.tasks[i].runCpu < s.cpus
    {
      assert TaskOk(s, i);
    }
    forall q: WaitQ, i: nat
      ensures WaitOk(s, q, i) && WaitOk(r, q, i)
    {
      assert WaitOk(s, q, i);
    }
  }

  lemma WakeIsTame(s: State, w: set<nat>)
    requires Tame(s)
    ensures Tame(Wake(s, w))
  {
    forall q: WaitQ, i: nat
      ensures WaitOk(Wake(s, w), q, i)
    {
      assert WaitOk(s, q, i);
    }
  }

  /** Waking one slot after others is waking them all at once. */
  lemma WakeOneMore(s: State, w: set<nat>, i: nat)
    requires Shape(s)
    ensures Wake(Wake(s, w), {i}) == Wake(s, w + {i})
  {
    var a, b := Wake(Wake(s, w), {i}), Wake(s, w + {i});
    assert a.tasks == b.tasks;
    forall c: nat | c < MAX_CPUS
      ensures a.runq[c] == b.runq[c]
    {
      forall j: nat
        ensures j in a.runq[c] <==> j in b.runq[c]
      {
      }
    }
    assert a.runq == b.runq;
    assert a.waiting == b.waiting;
  }

  lemma WakeNone(s: State, w: set<nat>)
    requires Shape(s) && forall i: nat | i in w && i < MAX_TASKS :: !Wakeable(s.tasks[i])
    ensures Wake(s, w) == s
  {
    var r := Wake(s, w);
    assert r.tasks == s.tasks;
    forall c: nat | c < MAX_CPUS
      ensures r.runq[c] == s.runq[c]
    {
      forall j: nat
        ensures j in r.runq[c] <==> j in s.runq[c]
      {
      }
    }
    assert r.runq == s.runq;
    assert r.waiting == s.waiting;
  }

  class Scheduler {
    const tasks: array<Task>
    const runq: array<set<nat>>
    const cur: array<nat>
    var waiting: set<(WaitQ, nat)>
    var ticks: nat
    var nextTid: nat
    var spawnRr: nat
    const cpus: nat
    ghost var log: Log

    ghost function Abs(): State
      reads this, tasks, runq, cur
    {
      State(tasks[..], runq[..], cur[..], waiting, ticks, nextTid, spawnRr, cpus, log)
    }

    ghost predicate Valid()
      reads this, tasks, runq, cur
    {
      Inv(Abs()) && ChildInv(Abs())
    }

    constructor (cpus: nat)
      requires 0 < cpus <= MAX_CPUS
      ensures Valid() && this.cpus == cpus
      ensures Abs().log == Log(map[], map[], map[]) && ticks == 0
      ensures fresh(tasks) && fresh(runq) && fresh(cur)
    {
      this.cpus := cpus;
      tasks := new Task[MAX_TASKS](i => if i == 0 then CLEARED.(used := true, idle := true, parentTid := -1, state := Runnable) else CLEARED);
      runq := new set<nat>[MAX_CPUS](_ => {});
      cur := new nat[MAX_CPUS](_ => 0);
      waiting, ticks, nextTid, spawnRr := {}, 0, 1, 0;
      log := Log(map[], map[], map[]);
    }

    /** Wakes the task in slot i if it is asleep or blocked. */
    method WakeSlot(i: nat)
      requires i < MAX_TASKS && Tame(Abs())
      modifies this, tasks, runq
      ensures Tame(Abs()) && Abs() == Wake(old(Abs()), {i})
    {
      ghost var s := Abs();
      WakeIsTame(s, {i});
      var t := tasks[i];
      if !Wakeable(t) {
        WakeNone(s, {i});
        return;
      }
      if t.waitq.Some? {
        waiting := waiting - {(t.waitq.value, i)};
      }
      var cpu := if t.runCpu >= cpus then 0 else t.runCpu;
      tasks[i] := t.(waitq := None, wakeTick := 0, state := Runnable, runCpu := cpu);
      runq[cpu] := runq[cpu] + {i};
      ghost var r := Wake(s, {i});
      assert tasks[..] == r.tasks;
      WokenBits(s, i);
      WokenQueues(s, i);
    }

    /** Wakes every task whose time has come. */
    method TryWakeSleepers(now: nat)
      requires Tame(Abs())
      modifies this, tasks, runq
      ensures Abs() == Wake(old(Abs()), Due(old(Abs()), now))
    {
      ghost var s := Abs();
      hide Wake, Tame, WaitOk;
      TameShape(s);
      WakeNone(s, {});
      ghost var w: set<nat> := {};
      for i := 0 to MAX_TASKS
        invariant Tame(Abs())
        invariant w == set j: nat | j < i && j in Due(s, now)
        invariant Abs() == Wake(s, w)
      {
        WakeLeaves(s, w, i);
        var t := tasks[i];
        if t.used && (t.state == Sleeping || t.state == Blocked) && t.wakeTick != 0 && t.wakeTick <= now && !t.idle {
          WakeOneMore(s, w, i);
          WakeSlot(i);
          w := w + {i};
        }
      }
      assert w == Due(s, now);
    }

    /** A timer tick. */
    method ScheduleTick()
      requires Valid()
      modifies this, tasks, runq
      ensures Valid() && Abs() == Tick(old(Abs()))
    {
      hide Wake, ChildInv, Tame, Due;
      ghost var s := Abs();
      InvIsTame(s);
      TickKeeps(s);
      TickKeepsChildren(s);
      ticks := ticks + 1;
      assert Abs() == s.(ticks := s.ticks + 1);
      TryWakeSleepers(ticks);
    }

    method FirstUnused() returns (k: nat)
      requires tasks.Length == MAX_TASKS
      ensures k == 0 ==> forall j :: 0 < j < MAX_TASKS ==> tasks[j].used
      ensures k != 0 ==> k < MAX_TASKS && FirstFree(tasks[..], k)
    {
      for i := 1 to MAX_TASKS
        invariant forall j :: 0 < j < i ==> tasks[j].used
      {
        if !tasks[i].used {
          return i;
        }
      }
      k := 0;
    }

    /** Starts a new task; `stack` says whether the stack pool has a stack left. The tid is used up either way. */
    method SchedSpawn(c: nat, stack: bool) returns (tid: int)
      requires Valid() && c < MAX_CPUS
      modifies this, tasks, runq
      ensures Valid() && Shape(old(Abs())) && old(cur[c]) < MAX_TASKS
      ensures tid == -1 && !stack ==> Abs() == old(Abs()) || Abs() == old(Abs()).(nextTid := old(nextTid) + 1)
      ensures tid == -1 && stack ==> Abs() == old(Abs()) && forall j :: 0 < j < MAX_TASKS ==> tasks[j].used
      ensures tid != -1 ==>
        tid == old(nextTid) && exists k: nat :: k < MAX_TASKS && FirstFree(old(tasks[..]), k) && Abs() == Spawn(old(Abs()), c, k)
      ensures tid != -1 ==> exists k: nat :: k < MAX_TASKS && NewChild(old(Abs()), Abs(), c, k, tid)
    {
      ghost var s := Abs();
      assert CurOk(s, c);
      var k := FirstUnused();
      if k == 0 {
        return -1;
      }
      var t := CLEARED.(used := true, tid := nextTid, parentTid := tasks[cur[c]].tid, state := Runnable);
      nextTid := nextTid + 1;
      if !stack {
        TidSkipped(s);
        return -1;
      }
      t := t.(runCpu := spawnRr % cpus);
      tasks[k] := t;
      runq[t.runCpu] := runq[t.runCpu] + {k};
      spawnRr := spawnRr + 1;
      SpawnKeeps(s, c, k);
      SpawnKeepsChildren(s, c, k);
      assert Abs() == Spawn(s, c, k);
      assert NewChild(s, Abs(), c, k, t.tid);
      tid := t.tid;
    }

    /** Finds a queued slot of CPU `c`, the next one after `start`. */
    method PickLocal(c: nat, start: nat) returns (k: nat)
      requires Valid() && c < MAX_CPUS && start < MAX_TASKS
      ensures k == 0 <==> runq[c] == {}
      ensures k != 0 ==> k in runq[c] && (start == 0 ==> forall j | j in runq[c] :: k <= j)
    {
      hide ChildInv;
      ghost var s := Abs();
      forall j: nat | j in runq[c]
        ensures IsSlot(j)
      {
        assert QueueOk(s, c, j);
      }
      for off := 1 to MAX_TASKS + 1
        invariant forall o :: 0 < o < off ==> After(start, o) !in runq[c]
      {
        var cand := After(start, off);
        if cand in runq[c] {
          LowestFirst(runq[c], start, off);
          return cand;
        }
      }
      AllPassed(runq[c], start);
      k := 0;
    }

    /** The scheduler loop of CPU `c` chooses what to execute next; it idles only if nothing is queued. */
    method PickAndRun(c: nat) returns (k: nat)
      requires Valid() && c < cpus && cur[c] == 0
      modifies tasks, runq, cur
      ensures Valid() && Shape(old(Abs())) && k < MAX_TASKS && Picks(old(runq[c]), k) && Abs() == Run(old(Abs()), c, k)
      ensures k == 0 <==> old(runq[c]) == {}
      ensures k == 0 ==> Abs() == old(Abs())
      ensures k != 0 ==> k in old(runq[c]) && (forall j | j in old(runq[c]) :: k <= j)
      ensures k != 0 ==> cur[c] == k && tasks[k].state == Running && runq[c] == old(runq[c]) - {k}
    {
      ghost var s := Abs();
      k := PickLocal(c, cur[c]);
      RunKeeps(s, c, k);
      RunKeepsChildren(s, c, k);
      if k == 0 {
        cur[c] := 0;
      } else {
        cur[c] := k;
        runq[c] := runq[c] - {k};
        tasks[k] := tasks[k].(state := Running, runCpu := c);
      }
      assert Abs() == Run(s, c, k);
    }

    /** What the scheduler loop does when the task it switched to gives the CPU back. */
    method BackFromTask(c: nat)
      requires Valid() && c < MAX_CPUS && cur[c] != 0
      modifies tasks, runq, cur
      ensures Valid() && Shape(old(Abs())) && old(cur[c]) < MAX_TASKS && Abs() == SwitchBack(old(Abs()), c)
      ensures cur[c] == 0
      ensures old(tasks[cur[c]]).state == Running ==> tasks[old(cur[c])].state == Runnable && old(cur[c]) in runq[c]
      ensures old(tasks[cur[c]]).state != Running ==> tasks[..] == old(tasks[..]) && runq[..] == old(runq[..])
    {
      ghost var s := Abs();
      SwitchBackKeeps(s, c);
      SwitchBackKeepsChildren(s, c);
      var i := cur[c];
      cur[c] := 0;
      if tasks[i].state == Running {
        tasks[i] := tasks[i].(state := Runnable);
        runq[c] := runq[c] + {i};
      }
      assert Abs() == SwitchBack(s, c);
    }

    /** A task offers the CPU; the same happens when the function of a kernel task returns. */
    method SchedYield(c: nat) returns (switch: bool)
      requires Valid() && c < MAX_CPUS
      modifies tasks, runq
      ensures Valid() && Shape(old(Abs())) && old(cur[c]) < MAX_TASKS && Abs() == Yield(old(Abs()), c)
      ensures switch <==> old(tasks[cur[c]]).state == Running
      ensures switch ==> tasks[cur[c]].state == Runnable && cur[c] in runq[c]
      ensures !switch ==> Abs() == old(Abs())
    {
      ghost var s := Abs();
      YieldKeeps(s, c);
      YieldKeepsChildren(s, c);
      var i := cur[c];
      switch := tasks[i].state == Running;
      if switch {
        tasks[i] := tasks[i].(state := Runnable, runCpu := c);
        runq[c] := runq[c] + {i};
      }
      assert Abs() == Yield(s, c);
    }

    /** A task goes to sleep for at least one tick. */
    method SchedSleepTicks(c: nat, n: nat)
      requires Valid() && c < MAX_CPUS && cur[c] != 0
      modifies tasks, runq
      ensures Valid() && Shape(old(Abs())) && old(cur[c]) < MAX_TASKS && old(tasks[cur[c]]).runCpu < MAX_CPUS
      ensures Abs() == SleepTicks(old(Abs()), c, n)
    {
      ghost var s := Abs();
      SleepTicksKeeps(s, c, n);
      SleepTicksKeepsChildren(s, c, n);
      var i := cur[c];
      var t := tasks[i];
      if t.idle {
        return;
      }
      tasks[i] := t.(wakeTick := ticks + (if n != 0 then n else 1), state := Sleeping);
      runq[t.runCpu] := runq[t.runCpu] - {i};
      assert Abs() == SleepTicks(s, c, n);
    }

    /** Puts the task of CPU `c` into wait queue q. */
    method WaitqSleepLocked(c: nat, q: WaitQ, n: nat)
      requires Inv(Abs()) && c < MAX_CPUS && cur[c] != 0 && (q.ChildOf? ==> q.slot == cur[c])
      modifies this`waiting, tasks, runq
      ensures Inv(Abs()) && Shape(old(Abs())) && old(cur[c]) < MAX_TASKS && old(tasks[cur[c]]).runCpu < MAX_CPUS
      ensures Abs() == WaitSleep(old(Abs()), c, q, n)
    {
      ghost var s := Abs();
      WaitSleepKeeps(s, c, q, n);
      var i := cur[c];
      var t := tasks[i];
      if t.idle {
        return;
      }
      if t.waitq.Some? {
        waiting := waiting - {(t.waitq.value, i)};
      }
      tasks[i] := t.(waitq := Some(q), state := Blocked, wakeTick := if n != 0 then ticks + n else 0);
      waiting := waiting + {(q, i)};
      runq[t.runCpu] := runq[t.runCpu] - {i};
      assert Abs() == WaitSleep(s, c, q, n);
    }

    /** A task goes to wait in a queue of another part of the kernel. */
    method WaitqSleep(c: nat, id: nat, n: nat)
      requires Valid() && c < MAX_CPUS && cur[c] != 0
      modifies this`waiting, tasks, runq
      ensures Valid() && Shape(old(Abs())) && old(cur[c]) < MAX_TASKS && old(tasks[cur[c]]).runCpu < MAX_CPUS
      ensures Abs() == WaitSleep(old(Abs()), c, Shared(id), n)
      ensures (Shared(id), cur[c]) in waiting
    {
      assert CurOk(Abs(), c) && TaskOk(Abs(), cur[c]);
      WaitSleepKeepsChildren(Abs(), c, Shared(id), n);
      WaitqSleepLocked(c, Shared(id), n);
    }

    /** Wakes the lowest slot in queue q. */
    method WaitqWakeOne(q: WaitQ)
      requires Valid()
      modifies this, tasks, runq
      ensures Valid() && Shape(old(Abs()))
      ensures Waiters(old(Abs()), q) == {} ==> Abs() == old(Abs())
      ensures Waiters(old(Abs()), q) != {} ==>
        exists i: nat :: i in Waiters(old(Abs()), q) && (forall j: nat | j in Waiters(old(Abs()), q) :: i <= j) && Abs() == Wake(old(Abs()), {i})
    {
      hide Wake, ChildInv;
      ghost var s := Abs();
      InvIsTame(s);
      WaitersAreSlots(s, q);
      for i := 1 to MAX_TASKS
        invariant Abs() == s && Valid()
        invariant forall j: nat | 0 < j < i :: (q, j) !in waiting
      {
        if (q, i) in waiting {
          WakeKeeps(s, {i});
          WakeKeepsChildren(s, {i});
          WakeSlot(i);
          return;
        }
      }
    }

    /** Wakes every slot in queue q. */
    method WakeAllLocked(q: WaitQ)
      requires Inv(Abs())
      modifies this, tasks, runq
      ensures Shape(old(Abs())) && Abs() == Wake(old(Abs()), Waiters(old(Abs()), q))
    {
      hide Wake, Tame, WaitOk;
      ghost var s := Abs();
      InvIsTame(s);
      WaitersAreSlots(s, q);
      WakeNone(s, {});
      ghost var w: set<nat> := {};
      for i := 1 to MAX_TASKS
        invariant Tame(Abs())
        invariant w == set j: nat | j < i && j in Waiters(s, q)
        invariant Abs() == Wake(s, w)
      {
        WakeLeavesBits(s, w, q, i);
        if (q, i) in waiting {
          WakeOneMore(s, w, i);
          WakeSlot(i);
          w := w + {i};
        }
      }
      assert w == Waiters(s, q);
    }

    method WaitqWakeAll(q: WaitQ)
      requires Valid()
      modifies this, tasks, runq
      ensures Valid() && Shape(old(Abs())) && Abs() == Wake(old(Abs()), Waiters(old(Abs()), q))
    {
      hide Wake, ChildInv, Waiters;
      WakeKeeps(Abs(), Waiters(Abs(), q));
      WakeKeepsChildren(Abs(), Waiters(Abs(), q));
      WakeAllLocked(q);
    }

    /** The slot of the task with this tid. */
    method FindByTid(tid: nat) returns (found: bool, p: nat)
      requires Inv(Abs())
      ensures p < MAX_TASKS
      ensures found <==> exists k: nat :: HasTid(tasks[..], k, tid)
      ensures found ==> forall k: nat :: HasTid(tasks[..], k, tid) <==> k == p
    {
      ghost var s := Abs();
      if tid == 0 {
        forall k: nat | HasTid(tasks[..], k, tid)
          ensures k == 0
        {
          assert TidsDiffer(s, 0, k);
        }
        assert HasTid(tasks[..], 0, tid);
        return true, 0;
      }
      for i := 1 to MAX_TASKS
        invariant forall k: nat | k < i :: !HasTid(tasks[..], k, tid)
      {
        if tasks[i].used && tasks[i].tid == tid {
          assert HasTid(tasks[..], i, tid);
          forall k: nat | HasTid(tasks[..], k, tid)
            ensures k == i
          {
            assert TidsDiffer(s, i, k);
          }
          return true, i;
        }
      }
      return false, 0;
    }

    /** Wakes whoever waits for a child of the task with this tid. */
    method WakeParent(parentTid: int)
      requires Inv(Abs())
      modifies this, tasks, runq
      ensures Shape(old(Abs())) && Abs() == Wake(old(Abs()), ParentWaiters(old(Abs()), parentTid))
    {
      hide Wake, WaitOk;
      ghost var s := Abs();
      if parentTid >= 0 {
        var found, p := FindByTid(parentTid);
        assert tasks[..] == s.tasks;
        if found {
          ParentQueue(s, parentTid, p);
          WakeAllLocked(ChildOf(p));
          return;
        }
      }
      NoParent(s, parentTid);
      WakeNone(s, {});
    }

    /** Takes slot i off its queues and leaves it as a zombie. */
    method MakeZombie(i: nat, code: nat)
      requires Shape(Abs()) && IsSlot(i) && tasks[i].runCpu < cpus
      modifies this, tasks, runq
      ensures Shape(old(Abs())) && Abs() == MadeZombie(old(Abs()), i, code)
    {
      ghost var s := Abs();
      var t := tasks[i];
      if t.waitq.Some? {
        waiting := waiting - {(t.waitq.value, i)};
      }
      tasks[i] := t.(waitq := None, exitCode := code, state := Zombie, wakeTick := 0);
      runq[t.runCpu] := runq[t.runCpu] - {i};
      log := log.(exited := log.exited[t.tid := code]);
      assert Abs() == MadeZombie(s, i, code);
    }

    /** The task of CPU `c` exits and gives the CPU back. */
    method SchedExit(c: nat, code: nat)
      requires Valid() && c < MAX_CPUS && cur[c] != 0
      modifies this, tasks, runq, cur
      ensures Valid() && Shape(old(Abs())) && IsSlot(old(cur[c])) && old(tasks[cur[c]]).runCpu < MAX_CPUS
      ensures Abs() == Exit(old(Abs()), c, code)
      ensures cur[c] == 0 && HasExited(old(Abs()), Abs(), old(cur[c]), code)
    {
      hide Wake, ParentWaiters, ChildInv, LearnsOfExit;
      ghost var s := Abs();
      assert CurOk(s, c);
      var i := cur[c];
      SlotFacts(s, i);
      ExitKeeps(s, c, code);
      ExitZombie(s, c, code);
      var parentTid := tasks[i].parentTid;
      MakeZombie(i, code);
      cur[c] := 0;
      assert Abs() == MadeZombie(s, i, code).(cur := s.cur[c := 0]);
      ZombieStays(Abs(), ParentWaiters(Abs(), parentTid), i);
      ParentLearns(s, Abs(), i, parentTid);
      WakeParent(parentTid);
    }

    /** A signal whose default is to terminate ends a task that no CPU executes. */
    method SignalTerminate(i: nat, sig: nat)
      requires Valid() && IsSlot(i) && tasks[i].used && OffCpu(Abs(), i)
      modifies this, tasks, runq
      ensures Valid() && Shape(old(Abs())) && old(tasks[i]).runCpu < MAX_CPUS
      ensures old(tasks[i]).state == Zombie ==> Abs() == old(Abs())
      ensures old(tasks[i]).state != Zombie ==> Abs() == Terminate(old(Abs()), i, sig)
      ensures old(tasks[i]).state != Zombie && sig < 0x80 ==> HasExited(old(Abs()), Abs(), i, 128 + sig)
    {
      hide Wake, ParentWaiters, ChildInv, LearnsOfExit;
      ghost var s := Abs();
      SlotFacts(s, i);
      if tasks[i].state == Zombie {
        return;
      }
      TerminateKeeps(s, i, sig);
      TerminateZombie(s, i, sig);
      var parentTid := tasks[i].parentTid;
      MakeZombie(i, 128 + sig % 0x80);
      ZombieStays(Abs(), ParentWaiters(Abs(), parentTid), i);
      ParentLearns(s, Abs(), i, parentTid);
      WakeParent(parentTid);
    }

    /** Looks for an exited child and reaps the first one: its tid, 0 if none has exited, or that there is no such child. */
    method TryReapChild(parentTid: nat, pid: int) returns (rc: int, status: nat)
      requires Valid()
      modifies this, tasks, runq
      ensures Valid() && Shape(old(Abs()))
      ensures rc > 0 ==> exists k: nat ::
        && FirstZombie(old(tasks[..]), parentTid, pid, k) && Abs() == Reap(old(Abs()), k)
        && rc == old(tasks[..])[k].tid && status == StatusOf(old(tasks[..])[k].exitCode)
      ensures rc <= 0 ==> Abs() == old(Abs()) && NoZombie(tasks[..], parentTid, pid)
      ensures rc == 0 || rc == WAITPID_NO_CHILD || rc > 0
      ensures rc <= 0 ==> (rc == WAITPID_NO_CHILD <==> NoChild(tasks[..], parentTid, pid))
      ensures Answers(old(Abs()), Abs(), parentTid, pid, rc, status)
    {
      hide ChildInv;
      ghost var s := Abs();
      var hasChild := false;
      status := 0;
      for i := 1 to MAX_TASKS
        invariant Abs() == s
        invariant forall j :: 0 < j < i ==> !(IsChildOf(tasks[j], parentTid, pid) && tasks[j].state == Zombie)
        invariant hasChild <==> exists j :: 0 < j < i && IsChildOf(tasks[j], parentTid, pid)
      {
        var t := tasks[i];
        if IsChildOf(t, parentTid, pid) {
          hasChild := true;
          if t.state == Zombie {
            SlotFacts(s, i);
            status := t.exitCode % 0x100 * 0x100;
            assert runq[t.runCpu] - {i} == runq[t.runCpu];
            runq[t.runCpu] := runq[t.runCpu] - {i};
            assert runq[..] == s.runq;
            tasks[i] := CLEARED;
            log := log.(reaped := log.reaped[t.tid := StatusOf(t.exitCode)]);
            assert FirstZombie(s.tasks, parentTid, pid, i);
            assert Abs() == Reap(s, i);
            ReapKeeps(s, i);
            ReapKeepsChildren(s, i);
            FoundChild(s, i, parentTid, pid);
            return t.tid, status;
          }
        }
      }
      rc := if hasChild then 0 else WAITPID_NO_CHILD;
      FoundNone(s, s, parentTid, pid, rc, status);
    }

    /** Reaps an exited child of the task on CPU `c`, or parks the task until a child exits. */
    method SchedWaitpid(c: nat, pid: int, nohang: bool) returns (rc: int, status: nat)
      requires Valid() && c < MAX_CPUS && cur[c] != 0
      modifies this, tasks, runq
      ensures Valid() && Shape(old(Abs())) && IsSlot(old(cur[c])) && old(tasks[cur[c]]).runCpu < MAX_CPUS
      ensures rc > 0 ==> exists k: nat ::
        && FirstZombie(old(tasks[..]), old(tasks[cur[c]]).tid, pid, k) && Abs() == Reap(old(Abs()), k)
        && rc == old(tasks[..])[k].tid && status == StatusOf(old(tasks[..])[k].exitCode)
      ensures rc <= 0 ==> NoZombie(old(tasks[..]), old(tasks[cur[c]]).tid, pid)
      ensures rc == WAITPID_NO_CHILD ==> Abs() == old(Abs()) && NoChild(tasks[..], tasks[cur[c]].tid, pid)
      ensures rc == 0 ==> nohang && Abs() == old(Abs())
      ensures rc == WAITPID_BLOCKED ==> !nohang && Abs() == WaitChild(old(Abs()), c, pid)
      ensures rc >= WAITPID_BLOCKED
      ensures Answers(old(Abs()), Abs(), old(tasks[cur[c]]).tid, pid, rc, status)
      ensures rc == WAITPID_BLOCKED ==> tasks[cur[c]].state == Blocked && (ChildOf(cur[c]), cur[c]) in waiting
      ensures rc == WAITPID_BLOCKED ==> cur[c] in log.waitFor && log.waitFor[cur[c]] == pid
    {
      hide ChildInv, Reap, Answers;
      ghost var s := Abs();
      assert CurOk(s, c);
      SlotFacts(s, cur[c]);
      rc, status := TryReapChild(tasks[cur[c]].tid, pid);
      if rc != 0 {
        return;
      }
      if nohang {
        return;
      }
      WaitChildKeeps(s, c, pid);
      WaitqSleepLocked(c, ChildOf(cur[c]), 0);
      log := log.(waitFor := log.waitFor[cur[c] := pid]);
      rc := WAITPID_BLOCKED;
      FoundNone(s, Abs(), s.tasks[cur[c]].tid, pid, rc, status);
    }
  }

  // ---------- what the operations mean for the slots ----------

  /** Slot k, free before, holds a new task that can run: a child of the task CPU `c` executes, with a number of its own. */
  ghost predicate NewChild(s: State, s': State, c: nat, k: nat, tid: int)
  {
    && Shape(s) && Shape(s') && c < MAX_CPUS && s.cur[c] < MAX_TASKS && IsSlot(k) && !s.tasks[k].used
    && s'.tasks[k].used && !s'.tasks[k].idle && s'.tasks[k].tid == tid == s.nextTid < s'.nextTid
    && s'.tasks[k].parentTid == s.tasks[s.cur[c]].tid
    && s'.tasks[k].state == Runnable && s'.tasks[k].waitq == None && s'.tasks[k].wakeTick == 0
    && s'.tasks[k].runCpu == s.spawnRr % s.cpus && k in s'.runq[s.spawnRr % s.cpus] && s'.spawnRr == s.spawnRr + 1
    && forall j: nat | j < MAX_TASKS && j != k :: s'.tasks[j] == s.tasks[j]
  }

  /** The task in slot i has become a zombie that keeps its exit code, and is on no queue. */
  ghost predicate HasExited(s: State, s': State, i: nat, code: nat)
  {
    && Shape(s) && Shape(s') && IsSlot(i)
    && s'.tasks[i].used && s'.tasks[i].state == Zombie && s'.tasks[i].exitCode == code
    && s'.tasks[i].tid == s.tasks[i].tid && s'.tasks[i].parentTid == s.tasks[i].parentTid
    && s'.tasks[i].waitq == None && s'.tasks[i].wakeTick == 0
    && s'.log.exited == s.log.exited[s.tasks[i].tid := code]
    && forall j: nat | 0 < j < MAX_TASKS && j != i :: LearnsOfExit(s.tasks[j], s'.tasks[j], j, s.tasks[i].parentTid)
  }

  /** The task in slot j, t before and t' after, can run again if it is the parent and waits for a child, and is untouched otherwise. */
  predicate LearnsOfExit(t: Task, t': Task, j: nat, parentTid: int)
  {
    if t.used && t.tid == parentTid && t.waitq == Some(ChildOf(j)) then t' == t.(state := Runnable, waitq := None, wakeTick := 0)
    else t' == t
  }

  /** Who learns that slot i has become a zombie. */
  lemma ParentLearns(s: State, z: State, i: nat, parentTid: int)
    requires Inv(s) && Inv(z) && IsSlot(i) && z.tasks == s.tasks[i := z.tasks[i]]
    ensures Shape(z)
    ensures forall j: nat | 0 < j < MAX_TASKS && j != i ::
      LearnsOfExit(s.tasks[j], Wake(z, ParentWaiters(z, parentTid)).tasks[j], j, parentTid)
  {
    forall j: nat | 0 < j < MAX_TASKS && j != i
      ensures LearnsOfExit(s.tasks[j], Wake(z, ParentWaiters(z, parentTid)).tasks[j], j, parentTid)
    {
      SlotFacts(z, j);
      OwnQueueOnly(z, j, parentTid);
    }
  }

  /** A task waits for its children in its own child queue, so the waiters of a parent are the parent. */
  lemma OwnQueueOnly(z: State, j: nat, parentTid: int)
    requires Inv(z) && 0 < j < MAX_TASKS
    ensures j in ParentWaiters(z, parentTid) <==> z.tasks[j].used && z.tasks[j].tid == parentTid && z.tasks[j].waitq == Some(ChildOf(j))
  {
    SlotFacts(z, j);
    assert WaitOk(z, ChildOf(j), j);
    if j in ParentWaiters(z, parentTid) {
      var q: (WaitQ, nat) :| q in z.waiting && q.0.ChildOf? && HasTid(z.tasks, q.0.slot, parentTid) && q.1 == j;
      assert WaitOk(z, q.0, j);
    }
  }

  lemma ZombieStays(z: State, w: set<nat>, i: nat)
    requires Shape(z) && i < MAX_TASKS && z.tasks[i].state == Zombie
    ensures Wake(z, w).tasks[i] == z.tasks[i] && Wake(z, w).log == z.log
  {
  }

  /** Slot k held an exited child of the caller; it is free now, and the status carries the low byte of its exit code. */
  ghost predicate ReapedSlot(s: State, s': State, parentTid: nat, rc: int, status: nat, k: nat)
  {
    && Shape(s) && Shape(s') && IsSlot(k)
    && s.tasks[k].used && !s.tasks[k].idle && s.tasks[k].state == Zombie && s.tasks[k].parentTid == parentTid && s.tasks[k].tid == rc
    && status / 0x100 == s.tasks[k].exitCode % 0x100 && status % 0x100 == 0
    && !s'.tasks[k].used && forall j: nat | j < MAX_TASKS && j != k :: s'.tasks[j] == s.tasks[j]
  }

  /** Slot j holds a child of the caller: the one with number pid, or any if pid is WAITPID_ANY. */
  ghost predicate AskedFor(s: State, j: nat, parentTid: nat, pid: int)
    requires Shape(s) && j < MAX_TASKS
  {
    s.tasks[j].used && s.tasks[j].parentTid == parentTid && (pid == WAITPID_ANY || s.tasks[j].tid == pid)
  }

  /** What waiting for a child answers, slot by slot. The source compares task numbers as unsigned words. */
  ghost predicate Answers(s: State, s': State, parentTid: nat, pid: int, rc: int, status: nat)
  {
    && Shape(s)
    && (rc > 0 ==> exists k: nat :: ReapedSlot(s, s', parentTid, rc, status, k))
    && (rc > 0 && 0 <= pid < 0x1_0000_0000 ==> rc == pid)
    && (rc > 0 && -0x8000_0000 <= pid < 0x8000_0000 && s.nextTid <= 0x8000_0000 ==> pid == WAITPID_ANY || rc == pid)
    && (-0x8000_0000 <= pid < WAITPID_ANY && s.nextTid <= 0x8000_0000 ==> rc == WAITPID_NO_CHILD)
    && (pid == WAITPID_ANY || 0 <= pid < 0x1_0000_0000 ==>
      (rc == WAITPID_NO_CHILD <==> forall j: nat | j < MAX_TASKS :: !AskedFor(s, j, parentTid, pid)))
    && (rc <= 0 && (pid == WAITPID_ANY || 0 <= pid < 0x1_0000_0000) ==>
      forall j: nat | j < MAX_TASKS :: !(AskedFor(s, j, parentTid, pid) && s.tasks[j].state == Zombie))
  }

  lemma FoundChild(s: State, k: nat, parentTid: nat, pid: int)
    requires Inv(s) && IsSlot(k) && FirstZombie(s.tasks, parentTid, pid, k)
    ensures Answers(s, Reap(s, k), parentTid, pid, s.tasks[k].tid, StatusOf(s.tasks[k].exitCode))
  {
    SlotFacts(s, k);
    assert ReapedSlot(s, Reap(s, k), parentTid, s.tasks[k].tid, StatusOf(s.tasks[k].exitCode), k);
    if pid == WAITPID_ANY || 0 <= pid < 0x1_0000_0000 {
      assert AskedFor(s, k, parentTid, pid);
    }
  }

  lemma FoundNone(s: State, s': State, parentTid: nat, pid: int, rc: int, status: nat)
    requires Inv(s) && rc <= 0 && NoZombie(s.tasks, parentTid, pid)
    requires rc == WAITPID_NO_CHILD <==> NoChild(s.tasks, parentTid, pid)
    ensures Answers(s, s', parentTid, pid, rc, status)
  {
    hide ChildInv;
    if pid == WAITPID_ANY || 0 <= pid < 0x1_0000_0000 {
      forall j: nat | j < MAX_TASKS
        ensures AskedFor(s, j, parentTid, pid) <==> j > 0 && IsChildOf(s.tasks[j], parentTid, pid)
      {
        if j > 0 {
          SlotFacts(s, j);
        }
      }
    } else if -0x8000_0000 <= pid < WAITPID_ANY && s.nextTid <= 0x8000_0000 {
      forall j: nat | 0 < j < MAX_TASKS
        ensures !IsChildOf(s.tasks[j], parentTid, pid)
      {
        SlotFacts(s, j);
      }
    }
  }

  lemma TameShape(s: State)
    requires Tame(s)
    ensures Shape(s) && s.tasks[0].idle
  {
  }

  lemma WakeLeaves(s: State, w: set<nat>, i: nat)
    requires Shape(s) && i < MAX_TASKS && i !in w
    ensures Wake(s, w).tasks[i] == s.tasks[i]
  {
  }

  lemma TickKeepsChildren(s: State)
    requires Inv(s) && ChildInv(s)
    ensures ChildInv(Tick(s))
  {
    SameKinKeeps(s, Tick(s));
  }

  /** A woken task goes into the run queue of its CPU. */
  lemma WokenQueues(s: State, i: nat)
    requires Tame(s) && i < MAX_TASKS && Wakeable(s.tasks[i])
    ensures s.tasks[i].runCpu < MAX_CPUS && Wake(s, {i}).runq == Enqueued(s.runq, s.tasks[i].runCpu, i)
  {
    var r, e := Wake(s, {i}), Enqueued(s.runq, s.tasks[i].runCpu, i);
    forall c: nat | c < MAX_CPUS
      ensures r.runq[c] == e[c]
    {
      forall j: nat
        ensures j in r.runq[c] <==> j in e[c]
      {
      }
    }
  }

  /** Clearing the bit of its own queue takes a slot out of all queues. */
  lemma WokenBits(s: State, i: nat)
    requires Tame(s) && i < MAX_TASKS && Wakeable(s.tasks[i])
    ensures Wake(s, {i}).waiting == Detached(s, i)
  {
    var r := Wake(s, {i});
    forall p
      ensures p in r.waiting <==> p in Detached(s, i)
    {
      assert WaitOk(s, p.0, p.1);
    }
  }

  /** The slot `off` places after `start`, wrapping around. */
  function After(start: nat, off: nat): nat { (start + off) % MAX_TASKS }

  /** Slot indices passed without finding one of them in q: there is none. */
  lemma AllPassed(q: set<nat>, start: nat)
    requires start < MAX_TASKS && (forall j: nat | j in q :: IsSlot(j))
    requires forall o :: 0 < o <= MAX_TASKS ==> After(start, o) !in q
    ensures q == {}
  {
    forall j: nat | IsSlot(j)
      ensures j !in q
    {
      assert After(start, if j > start then j - start else j - start + MAX_TASKS) == j;
    }
  }

  /** Starting behind slot 0, the first one found is the lowest. */
  lemma LowestFirst(q: set<nat>, start: nat, off: nat)
    requires 0 < off <= MAX_TASKS && (forall j: nat | j in q :: IsSlot(j)) && After(start, off) in q
    requires forall o :: 0 < o < off ==> After(start, o) !in q
    ensures start == 0 ==> forall j | j in q :: After(start, off) <= j
  {
    if start == 0 {
      forall j: nat | 0 < j < After(start, off)
        ensures j !in q
      {
        assert After(start, j) == j;
      }
    }
  }

  /** A tid that was used up for nothing. */
  lemma TidSkipped(s: State)
    requires Inv(s) && ChildInv(s)
    ensures Inv(s.(nextTid := s.nextTid + 1)) && ChildInv(s.(nextTid := s.nextTid + 1))
  {
    var r := s.(nextTid := s.nextTid + 1);
    forall i: nat | IsSlot(i)
      ensures TaskOk(r, i) && ExitOk(r, i)
    {
      assert TaskOk(s, i) && ExitOk(s, i);
    }
    forall c: nat | c < MAX_CPUS
      ensures CurOk(r, c)
    {
      assert CurOk(s, c);
    }
    forall c: nat, i: nat
      ensures QueueOk(r, c, i)
    {
      assert QueueOk(s, c, i);
    }
    forall q: WaitQ, i: nat
      ensures WaitOk(r, q, i)
    {
      assert WaitOk(s, q, i);
    }
    forall i: nat, j: nat | i < MAX_TASKS && j < MAX_TASKS
      ensures TidsDiffer(r, i, j)
    {
      assert TidsDiffer(s, i, j);
    }
    forall i: nat, k: nat | IsSlot(i) && IsSlot(k)
      ensures NoMissed(r, i, k)
    {
      assert NoMissed(s, i, k);
    }
    forall tid: nat
      ensures ReapOk(r, tid)
    {
      assert ReapOk(s, tid);
    }
  }

  lemma RunKeepsChildren(s: State, c: nat, k: nat)
    requires Inv(s) && ChildInv(s) && c < MAX_CPUS && s.cur[c] == 0 && (k == 0 || k in s.runq[c])
    ensures k < MAX_TASKS && ChildInv(Run(s, c, k))
  {
    assert QueueOk(s, c, k);
    SameKinKeeps(s, Run(s, c, k));
  }

  lemma SwitchBackKeepsChildren(s: State, c: nat)
    requires Inv(s) && ChildInv(s) && c < MAX_CPUS && s.cur[c] != 0
    ensures s.cur[c] < MAX_TASKS && ChildInv(SwitchBack(s, c))
  {
    assert CurOk(s, c);
    SameKinKeeps(s, SwitchBack(s, c));
  }

  lemma YieldKeepsChildren(s: State, c: nat)
    requires Inv(s) && ChildInv(s) && c < MAX_CPUS
    ensures s.cur[c] < MAX_TASKS && ChildInv(Yield(s, c))
  {
    assert CurOk(s, c);
    SameKinKeeps(s, Yield(s, c));
  }

  lemma SleepTicksKeepsChildren(s: State, c: nat, n: nat)
    requires Inv(s) && ChildInv(s) && c < MAX_CPUS && s.cur[c] != 0
    ensures s.cur[c] < MAX_TASKS && s.tasks[s.cur[c]].runCpu < MAX_CPUS && ChildInv(SleepTicks(s, c, n))
  {
    assert CurOk(s, c);
    SlotFacts(s, s.cur[c]);
    SameKinKeeps(s, SleepTicks(s, c, n));
  }

  lemma WaitSleepKeepsChildren(s: State, c: nat, q: WaitQ, n: nat)
    requires Inv(s) && ChildInv(s) && c < MAX_CPUS && s.cur[c] != 0 && q.Shared?
    ensures s.cur[c] < MAX_TASKS && s.tasks[s.cur[c]].runCpu < MAX_CPUS && ChildInv(WaitSleep(s, c, q, n))
  {
    assert CurOk(s, c);
    SlotFacts(s, s.cur[c]);
    SameKinKeeps(s, WaitSleep(s, c, q, n));
  }

  lemma WaitersAreSlots(s: State, q: WaitQ)
    requires Inv(s)
    ensures Shape(s) && forall i: nat | i in Waiters(s, q) :: IsSlot(i)
    ensures forall i: nat :: i in Waiters(s, q) <==> (q, i) in s.waiting
  {
    forall i: nat | i in Waiters(s, q)
      ensures IsSlot(i) && (q, i) in s.waiting
    {
      assert WaitOk(s, q, i);
    }
  }

  lemma WakeLeavesBits(s: State, w: set<nat>, q: WaitQ, i: nat)
    requires Shape(s) && i !in w
    ensures (q, i) in Wake(s, w).waiting <==> (q, i) in s.waiting
  {
  }

  lemma WakeKeepsChildren(s: State, w: set<nat>)
    requires Inv(s) && ChildInv(s)
    ensures ChildInv(Wake(s, w))
  {
    SameKinKeeps(s, Wake(s, w));
  }

  lemma ParentQueue(s: State, parentTid: int, p: nat)
    requires Inv(s) && forall k: nat :: HasTid(s.tasks, k, parentTid) <==> k == p
    ensures ParentWaiters(s, parentTid) == Waiters(s, ChildOf(p))
  {
  }

  lemma NoParent(s: State, parentTid: int)
    requires Inv(s) && (parentTid < 0 || !exists k: nat :: HasTid(s.tasks, k, parentTid))
    ensures ParentWaiters(s, parentTid) == {}
  {
  }

  lemma ExitZombie(s: State, c: nat, code: nat)
    requires Inv(s) && ChildInv(s) && c < MAX_CPUS && IsSlot(s.cur[c]) && s.tasks[s.cur[c]].runCpu < MAX_CPUS
    ensures Inv(MadeZombie(s, s.cur[c], code).(cur := s.cur[c := 0])) && ChildInv(Exit(s, c, code))
  {
    assert CurOk(s, c);
    var i := s.cur[c];
    SlotFacts(s, i);
    OneSlotKeeps(s, MadeZombie(s, i, code).(cur := s.cur[c := 0]), i);
    ZombieKeepsChildren(s, i, code, s.cur[c := 0]);
  }

  lemma TerminateZombie(s: State, i: nat, sig: nat)
    requires Inv(s) && ChildInv(s) && IsSlot(i) && s.tasks[i].used && s.tasks[i].state != Zombie && OffCpu(s, i)
    ensures s.tasks[i].runCpu < MAX_CPUS && Inv(MadeZombie(s, i, 128 + sig % 0x80)) && ChildInv(Terminate(s, i, sig))
  {
    SlotFacts(s, i);
    OneSlotKeeps(s, MadeZombie(s, i, 128 + sig % 0x80), i);
    ZombieKeepsChildren(s, i, 128 + sig % 0x80, s.cur);
  }
}
