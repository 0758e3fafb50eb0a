/** Every step of the scheduler keeps its invariant. */
module SchedInv {
  import opened SchedState

  /** Waking any set of slots keeps the invariant, provided whoever is left asleep has time to go. */
  lemma WakeKeeps(s: State, w: set<nat>)
    requires Inv(s)
    ensures Inv(Wake(s, w))
  {
    var r := Wake(s, w);
    forall i: nat | IsSlot(i)
      ensures TaskOk(r, i)
    {
      assert TaskOk(s, i);
    }
    forall c: nat | c < MAX_CPUS
      ensures CurOk(r, c)
    {
      assert CurOk(s, c);
    }
    forall c: nat, i: nat
      ensures QueueOk(r, c, i)
    {
      assert QueueOk(s, c, i);
    }
    forall q: WaitQ, i: nat
      ensures WaitOk(r, q, i)
    {
      assert WaitOk(s, q, i);
    }
    forall i: nat, j: nat | i < MAX_TASKS && j < MAX_TASKS
      ensures TidsDiffer(r, i, j)
    {
      assert TidsDiffer(s, i, j);
    }
  }

  /** Everything the invariant says, but with time one tick on. */
  lemma TickKeeps(s: State)
    requires Inv(s)
    ensures Inv(Tick(s))
  {
    var r := Tick(s);
    forall i: nat | IsSlot(i)
      ensures TaskOk(r, i)
    {
      assert TaskOk(s, i);
    }
    forall c: nat | c < MAX_CPUS
      ensures CurOk(r, c)
    {
      assert CurOk(s, c);
    }
    forall c: nat, i: nat
      ensures QueueOk(r, c, i)
    {
      assert QueueOk(s, c, i);
    }
    forall q: WaitQ, i: nat
      ensures WaitOk(r, q, i)
    {
      assert WaitOk(s, q, i);
    }
    forall i: nat, j: nat | i < MAX_TASKS && j < MAX_TASKS
      ensures TidsDiffer(r, i, j)
    {
      assert TidsDiffer(s, i, j);
    }
  }

  /** From s to r only slot k changed, or a CPU stopped executing it or began to. */
  ghost predicate OnlySlot(s: State, r: State, k: nat)
  {
    && Shape(s) && Shape(r) && IsSlot(k) && r.ticks == s.ticks && r.cpus == s.cpus && s.nextTid <= r.nextTid
    && (forall i: nat | i < MAX_TASKS && i != k :: r.tasks[i] == s.tasks[i])
    && (forall c: nat, i: nat | c < MAX_CPUS && i != k :: i in r.runq[c] <==> i in s.runq[c])
    && (forall q: WaitQ, i: nat | i != k :: (q, i) in r.waiting <==> (q, i) in s.waiting)
    && (forall c: nat | c < MAX_CPUS :: r.cur[c] == s.cur[c] || (r.cur[c] == k && s.cur[c] == 0) || (r.cur[c] == 0 && s.cur[c] == k))
  }

  /** What slot k itself has to meet. */
  ghost predicate SlotOk(r: State, k: nat)
    requires Shape(r) && IsSlot(k)
  {
    && TaskOk(r, k)
    && (forall c: nat | c < MAX_CPUS && r.cur[c] == k :: r.tasks[k].used && r.tasks[k].runCpu == c && r.tasks[k].state != Zombie)
    && (forall c: nat | c < MAX_CPUS :: QueueOk(r, c, k))
    && (forall q: WaitQ :: WaitOk(r, q, k))
    && (r.tasks[k].used ==> forall j: nat | j < MAX_TASKS && j != k && r.tasks[j].used :: r.tasks[j].tid != r.tasks[k].tid)
  }

  /** A step that changes one slot keeps the invariant if that slot is in order afterwards. */
  lemma OneSlotKeeps(s: State, r: State, k: nat)
    requires Inv(s) && OnlySlot(s, r, k) && SlotOk(r, k)
    ensures Inv(r)
  {
    forall i: nat | IsSlot(i)
      ensures TaskOk(r, i)
    {
      assert TaskOk(s, i);
    }
    forall c: nat | c < MAX_CPUS
      ensures CurOk(r, c)
    {
      assert CurOk(s, c);
    }
    forall c: nat, i: nat
      ensures QueueOk(r, c, i)
    {
      assert QueueOk(s, c, i);
    }
    forall q: WaitQ, i: nat
      ensures WaitOk(r, q, i)
    {
      assert WaitOk(s, q, i);
    }
    forall i: nat, j: nat | i < MAX_TASKS && j < MAX_TASKS
      ensures TidsDiffer(r, i, j)
    {
      assert TidsDiffer(s, i, j);
    }
  }

  /** What the invariant says about slot k, spelt out for one slot. */
  lemma SlotFacts(s: State, k: nat)
    requires Inv(s) && IsSlot(k)
    ensures TaskOk(s, k)
    ensures forall c: nat | c < MAX_CPUS && s.cur[c] == k :: s.tasks[k].used && s.tasks[k].runCpu == c && s.tasks[k].state != Zombie
    ensures forall c: nat | c < MAX_CPUS :: k in s.runq[c] <==> s.tasks[k].used && s.tasks[k].state == Runnable && s.tasks[k].runCpu == c
    ensures forall q: WaitQ :: (q, k) in s.waiting <==> s.tasks[k].used && s.tasks[k].waitq == Some(q)
    ensures s.tasks[k].used ==> forall j: nat | j < MAX_TASKS && j != k && s.tasks[j].used :: s.tasks[j].tid != s.tasks[k].tid
  {
    assert TaskOk(s, k);
    forall c: nat | c < MAX_CPUS && s.cur[c] == k
      ensures s.tasks[k].used && s.tasks[k].runCpu == c && s.tasks[k].state != Zombie
    {
      assert CurOk(s, c);
    }
    if s.tasks[k].used {
      forall j: nat | j < MAX_TASKS && j != k && s.tasks[j].used
        ensures s.tasks[j].tid != s.tasks[k].tid
      {
        assert TidsDiffer(s, k, j);
      }
    }
    forall c: nat | c < MAX_CPUS
      ensures k in s.runq[c] <==> s.tasks[k].used && s.tasks[k].state == Runnable && s.tasks[k].runCpu == c
    {
      assert QueueOk(s, c, k);
    }
    forall q: WaitQ
      ensures (q, k) in s.waiting <==> s.tasks[k].used && s.tasks[k].waitq == Some(q)
    {
      assert WaitOk(s, q, k);
    }
  }

  lemma SpawnKeeps(s: State, c: nat, k: nat)
    requires Inv(s) && c < MAX_CPUS && IsSlot(k) && !s.tasks[k].used
    ensures s.cur[c] < MAX_TASKS && Inv(Spawn(s, c, k))
  {
    assert CurOk(s, c);
    SlotFacts(s, k);
    var r := Spawn(s, c, k);
    forall j: nat | j < MAX_TASKS && j != k && r.tasks[j].used
      ensures r.tasks[j].tid != r.tasks[k].tid
    {
      if j > 0 {
        assert TaskOk(s, j);
      }
    }
    OneSlotKeeps(s, r, k);
  }

  lemma RunKeeps(s: State, c: nat, k: nat)
    requires Inv(s) && c < MAX_CPUS && s.cur[c] == 0 && (k == 0 || k in s.runq[c])
    ensures k < MAX_TASKS && Inv(Run(s, c, k))
  {
    if k == 0 {
      assert Run(s, c, k) == s;
    } else {
      assert QueueOk(s, c, k);
      SlotFacts(s, k);
      OneSlotKeeps(s, Run(s, c, k), k);
    }
  }

  lemma SwitchBackKeeps(s: State, c: nat)
    requires Inv(s) && c < MAX_CPUS && s.cur[c] != 0
    ensures s.cur[c] < MAX_TASKS && Inv(SwitchBack(s, c))
  {
    assert CurOk(s, c);
    SlotFacts(s, s.cur[c]);
    OneSlotKeeps(s, SwitchBack(s, c), s.cur[c]);
  }

  lemma YieldKeeps(s: State, c: nat)
    requires Inv(s) && c < MAX_CPUS
    ensures s.cur[c] < MAX_TASKS && Inv(Yield(s, c))
  {
    assert CurOk(s, c);
    if s.cur[c] != 0 {
      SlotFacts(s, s.cur[c]);
      OneSlotKeeps(s, Yield(s, c), s.cur[c]);
    }
  }

  lemma SleepTicksKeeps(s: State, c: nat, n: nat)
    requires Inv(s) && c < MAX_CPUS && s.cur[c] != 0
    ensures s.cur[c] < MAX_TASKS && s.tasks[s.cur[c]].runCpu < MAX_CPUS && Inv(SleepTicks(s, c, n))
  {
    assert CurOk(s, c);
    SlotFacts(s, s.cur[c]);
    OneSlotKeeps(s, SleepTicks(s, c, n), s.cur[c]);
  }

  lemma WaitSleepKeeps(s: State, c: nat, q: WaitQ, n: nat)
    requires Inv(s) && c < MAX_CPUS && s.cur[c] != 0 && (q.ChildOf? ==> q.slot == s.cur[c])
    ensures s.cur[c] < MAX_TASKS && s.tasks[s.cur[c]].runCpu < MAX_CPUS && Inv(WaitSleep(s, c, q, n))
  {
    assert CurOk(s, c);
    SlotFacts(s, s.cur[c]);
    OneSlotKeeps(s, WaitSleep(s, c, q, n), s.cur[c]);
  }

  lemma ExitKeeps(s: State, c: nat, code: nat)
    requires Inv(s) && c < MAX_CPUS && s.cur[c] != 0
    ensures IsSlot(s.cur[c]) && s.tasks[s.cur[c]].runCpu < MAX_CPUS && Inv(Exit(s, c, code))
  {
    assert CurOk(s, c);
    var i := s.cur[c];
    SlotFacts(s, i);
    var z := MadeZombie(s, i, code).(cur := s.cur[c := 0]);
    OneSlotKeeps(s, z, i);
    WakeKeeps(z, ParentWaiters(z, s.tasks[i].parentTid));
  }

  /** No CPU executes slot i. */
  predicate OffCpu(s: State, i: nat)
  {
    forall c: nat | c < |s.cur| :: s.cur[c] != i
  }

  lemma TerminateKeeps(s: State, i: nat, sig: nat)
    requires Inv(s) && IsSlot(i) && s.tasks[i].used && s.tasks[i].state != Zombie && OffCpu(s, i)
    ensures s.tasks[i].runCpu < MAX_CPUS && Inv(Terminate(s, i, sig))
  {
    SlotFacts(s, i);
    var z := MadeZombie(s, i, 128 + sig % 0x80);
    OneSlotKeeps(s, z, i);
    WakeKeeps(z, ParentWaiters(z, s.tasks[i].parentTid));
  }

  lemma ReapKeeps(s: State, k: nat)
    requires Inv(s) && IsSlot(k) && s.tasks[k].used && s.tasks[k].state == Zombie
    ensures Inv(Reap(s, k))
  {
    SlotFacts(s, k);
    OneSlotKeeps(s, Reap(s, k), k);
  }

  // ---------- children ----------

  /** From s to r no task came, went or exited, and whoever waits for a child in r did so in s. */
  ghost predicate SameKin(s: State, r: State)
  {
    && Shape(s) && Shape(r) && r.log == s.log && r.nextTid == s.nextTid
    && forall i: nat | IsSlot(i) ::
      && r.tasks[i].used == s.tasks[i].used && r.tasks[i].idle == s.tasks[i].idle && r.tasks[i].tid == s.tasks[i].tid
      && r.tasks[i].parentTid == s.tasks[i].parentTid && r.tasks[i].exitCode == s.tasks[i].exitCode
      && (r.tasks[i].state == Zombie <==> s.tasks[i].state == Zombie)
      && (r.tasks[i].waitq == Some(ChildOf(i)) ==> s.tasks[i].waitq == Some(ChildOf(i)))
  }

  lemma SameKinKeeps(s: State, r: State)
    requires SameKin(s, r) && ChildInv(s)
    ensures ChildInv(r)
  {
    forall i: nat, k: nat | IsSlot(i) && IsSlot(k)
      ensures NoMissed(r, i, k)
    {
      assert NoMissed(s, i, k);
    }
    forall i: nat | IsSlot(i)
      ensures ExitOk(r, i)
    {
      assert ExitOk(s, i);
    }
    forall tid: nat
      ensures ReapOk(r, tid)
    {
      assert ReapOk(s, tid);
    }
  }

  lemma SpawnKeepsChildren(s: State, c: nat, k: nat)
    requires Inv(s) && ChildInv(s) && c < MAX_CPUS && IsSlot(k) && !s.tasks[k].used
    ensures s.cur[c] < MAX_TASKS && ChildInv(Spawn(s, c, k))
  {
    assert CurOk(s, c);
    var r := Spawn(s, c, k);
    forall i: nat, j: nat | IsSlot(i) && IsSlot(j)
      ensures NoMissed(r, i, j)
    {
      assert NoMissed(s, i, j);
    }
    assert ReapOk(s, s.nextTid);
    forall i: nat | IsSlot(i)
      ensures ExitOk(r, i)
    {
      assert ExitOk(s, i);
    }
    forall tid: nat
      ensures ReapOk(r, tid)
    {
      assert ReapOk(s, tid);
    }
  }

  /** Nobody keeps waiting for a child of the task whose waiters are woken. */
  lemma WaiterIsWoken(z: State, parentTid: int, m: nat)
    requires Inv(z) && IsSlot(m)
    ensures Wake(z, ParentWaiters(z, parentTid)).tasks[m].waitq == Some(ChildOf(m)) ==>
      z.tasks[m].waitq == Some(ChildOf(m)) && !HasTid(z.tasks, m, parentTid)
  {
    assert TaskOk(z, m) && WaitOk(z, ChildOf(m), m);
  }

  lemma ZombieUnmissed(s: State, i: nat, code: nat, cur: seq<nat>, m: nat, k: nat)
    requires Shape(s) && IsSlot(i) && s.tasks[i].used && s.tasks[i].runCpu < MAX_CPUS && |cur| == MAX_CPUS
    requires IsSlot(m) && IsSlot(k) && NoMissed(s, m, k) && Inv(MadeZombie(s, i, code).(cur := cur))
    ensures var z := MadeZombie(s, i, code).(cur := cur);
      NoMissed(Wake(z, ParentWaiters(z, s.tasks[i].parentTid)), m, k)
  {
    hide Inv, ParentWaiters;
    var z := MadeZombie(s, i, code).(cur := cur);
    WaiterIsWoken(z, s.tasks[i].parentTid, m);
  }

  /** Slot i became a zombie, and whoever waited for a child of its parent was woken. */
  lemma ZombieKeepsChildren(s: State, i: nat, code: nat, cur: seq<nat>)
    requires Inv(s) && ChildInv(s) && IsSlot(i) && s.tasks[i].used && s.tasks[i].state != Zombie && |cur| == MAX_CPUS
    ensures s.tasks[i].runCpu < MAX_CPUS
    ensures var z := MadeZombie(s, i, code).(cur := cur);
      Inv(z) ==> ChildInv(Wake(z, ParentWaiters(z, s.tasks[i].parentTid)))
  {
    SlotFacts(s, i);
    var z := MadeZombie(s, i, code).(cur := cur);
    if Inv(z) {
      var r := Wake(z, ParentWaiters(z, s.tasks[i].parentTid));
      forall m: nat, k: nat | IsSlot(m) && IsSlot(k)
        ensures NoMissed(r, m, k)
      {
        assert NoMissed(s, m, k);
        ZombieUnmissed(s, i, code, cur, m, k);
      }
      assert ExitOk(s, i);
      forall m: nat | IsSlot(m)
        ensures ExitOk(r, m)
      {
        assert ExitOk(s, m) && TidsDiffer(s, m, i);
      }
      forall tid: nat
        ensures ReapOk(r, tid)
      {
        assert ReapOk(s, tid);
      }
    }
  }

  lemma ReapKeepsChildren(s: State, k: nat)
    requires Inv(s) && ChildInv(s) && IsSlot(k) && s.tasks[k].used && s.tasks[k].state == Zombie
    ensures s.tasks[k].tid !in s.log.reaped && ChildInv(Reap(s, k))
  {
    var r := Reap(s, k);
    assert ExitOk(s, k) && TaskOk(s, k);
    forall i: nat, j: nat | IsSlot(i) && IsSlot(j)
      ensures NoMissed(r, i, j)
    {
      assert NoMissed(s, i, j);
    }
    forall i: nat | IsSlot(i)
      ensures ExitOk(r, i)
    {
      assert ExitOk(s, i) && TidsDiffer(s, i, k);
    }
    forall tid: nat
      ensures ReapOk(r, tid)
    {
      assert ReapOk(s, tid);
    }
  }

  /** A waitpid parks only when no child asked for has exited. */
  lemma WaitChildKeeps(s: State, c: nat, pid: int)
    requires Inv(s) && ChildInv(s) && c < MAX_CPUS && IsSlot(s.cur[c])
    requires NoZombie(s.tasks, s.tasks[s.cur[c]].tid, pid)
    ensures s.tasks[s.cur[c]].runCpu < MAX_CPUS && Inv(WaitChild(s, c, pid)) && ChildInv(WaitChild(s, c, pid))
  {
    WaitSleepKeeps(s, c, ChildOf(s.cur[c]), 0);
    var i0, v, r := s.cur[c], WaitSleep(s, c, ChildOf(s.cur[c]), 0), WaitChild(s, c, pid);
    LogIsHistory(v, r);
    assert CurOk(s, c);
    forall i: nat, k: nat | IsSlot(i) && IsSlot(k)
      ensures NoMissed(r, i, k)
    {
      assert NoMissed(s, i, k);
    }
    forall i: nat | IsSlot(i)
      ensures ExitOk(r, i)
    {
      assert ExitOk(s, i);
    }
    forall tid: nat
      ensures ReapOk(r, tid)
    {
      assert ReapOk(s, tid);
    }
  }

  /** The log is no part of what the scheduler does. */
  lemma LogIsHistory(s: State, r: State)
    requires Inv(s) && r == s.(log := r.log)
    ensures Inv(r)
  {
    forall i: nat | IsSlot(i)
      ensures TaskOk(r, i)
    {
      assert TaskOk(s, i);
    }
    forall c: nat | c < MAX_CPUS
      ensures CurOk(r, c)
    {
      assert CurOk(s, c);
    }
    forall c: nat, i: nat
      ensures QueueOk(r, c, i)
    {
      assert QueueOk(s, c, i);
    }
    forall q: WaitQ, i: nat
      ensures WaitOk(r, q, i)
    {
      assert WaitOk(s, q, i);
    }
    forall i: nat, j: nat | i < MAX_TASKS && j < MAX_TASKS
      ensures TidsDiffer(r, i, j)
    {
      assert TidsDiffer(s, i, j);
    }
  }
}
