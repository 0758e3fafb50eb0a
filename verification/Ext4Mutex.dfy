/** The sleeping mutex of the file system, over all interleavings of any number of threads that are never killed. */
module Ext4Mutex {

  /** Where a thread stands. `woken` tells a thread that was woken and retries from one that asks for the first time. */
  datatype Pc =
    | Outside
    // lock: take the spin lock, look at the flag, take it or go to sleep, give the spin lock back
    | LockSpin(woken: bool)
    | LockCheck(woken: bool)
    | LockTaken
    | LockAsleep
    | LockBlocked
    // the caller's critical section
    | Critical
    // unlock: take the spin lock, clear the flag, give the spin lock back, wake one waiter
    | UnlockSpin
    | UnlockClear
    | UnlockDone
    | UnlockWake

  /** The spin lock and its owner, the flag, the wait queue, and every thread's place. A thread is blocked while it is queued. */
  datatype State = State(spin: int, held: bool, queue: set<nat>, pc: seq<Pc>)

  const FREE := -1

  // ---------- steps ----------

  /** Threads that hold the spin lock. */
  predicate HoldsSpin(p: Pc) { p.LockCheck? || p.LockTaken? || p.LockAsleep? || p.UnlockClear? || p.UnlockDone? }

  /** Threads that own the mutex. */
  predicate Owns(p: Pc) { p.LockTaken? || p.Critical? || p.UnlockSpin? || p.UnlockClear? }

  predicate LowestIn(q: set<nat>, w: nat) { w in q && forall j: nat | j in q :: w <= j }

  function Moved(s: State, t: nat, p: Pc): seq<Pc>
    requires t < |s.pc|
  {
    s.pc[t := p]
  }

  /** One step of thread t. */
  ghost predicate Step(s: State, s': State, t: nat)
  {
    t < |s.pc| &&
    match s.pc[t]
    case Outside => s' == s.(pc := Moved(s, t, LockSpin(false)))
    case LockSpin(w) => s.spin == FREE && s' == s.(spin := t, pc := Moved(s, t, LockCheck(w)))
    case LockCheck(w) =>
      if !s.held then s' == s.(held := true, pc := Moved(s, t, LockTaken))
      else s' == s.(queue := s.queue + {t}, pc := Moved(s, t, LockAsleep))
    case LockTaken => s' == s.(spin := FREE, pc := Moved(s, t, Critical))
    case LockAsleep => s' == s.(spin := FREE, pc := Moved(s, t, LockBlocked))
    case LockBlocked => t !in s.queue && s' == s.(pc := Moved(s, t, LockSpin(true)))
    case Critical => s' == s.(pc := Moved(s, t, UnlockSpin))
    case UnlockSpin => s.spin == FREE && s' == s.(spin := t, pc := Moved(s, t, UnlockClear))
    case UnlockClear => s' == s.(held := false, pc := Moved(s, t, UnlockDone))
    case UnlockDone => s' == s.(spin := FREE, pc := Moved(s, t, UnlockWake))
    case UnlockWake =>
      if s.queue == {} then s' == s.(pc := Moved(s, t, Outside))
      else exists w: nat :: LowestIn(s.queue, w) && s' == s.(queue := s.queue - {w}, pc := Moved(s, t, Outside))
  }

  ghost predicate Initial(s: State)
  {
    s.spin == FREE && !s.held && s.queue == {} && forall t :: 0 <= t < |s.pc| ==> s.pc[t] == Outside
  }

  /** A run: each state follows from the one before by a step of some thread. */
  ghost predicate Run(run: seq<State>)
  {
    && run != [] && Initial(run[0])
    && forall k :: 0 <= k < |run| - 1 ==> Moves(run[k], run[k + 1])
  }

  ghost predicate Moves(s: State, s': State)
  {
    exists t: nat :: Step(s, s', t)
  }

  // ---------- invariant ----------

  /** An unlocker that has cleared the flag but not yet woken anyone, or a woken waiter that has not yet looked at the flag again. */
  predicate WillServe(s: State, u: nat)
  {
    u < |s.pc| &&
    match s.pc[u]
    case UnlockDone => true
    case UnlockWake => true
    case LockSpin(w) => w
    case LockCheck(w) => w
    case LockAsleep => u !in s.queue
    case LockBlocked => u !in s.queue
    case _ => false
  }

  /** The spin lock's owner is the one thread inside a section it protects. */
  ghost predicate SpinOk(s: State)
  {
    && (s.spin == FREE || 0 <= s.spin < |s.pc|)
    && forall t: nat | t < |s.pc| :: HoldsSpin(s.pc[t]) <==> s.spin == t
  }

  /** At most one thread owns the mutex, and the flag is set exactly while one does. */
  ghost predicate OwnerOk(s: State)
  {
    && (forall t: nat, u: nat | t < |s.pc| && u < |s.pc| && Owns(s.pc[t]) && Owns(s.pc[u]) :: t == u)
    && (s.held <==> exists t: nat :: t < |s.pc| && Owns(s.pc[t]))
  }

  /** Only threads that went to sleep are queued. */
  ghost predicate QueueOk(s: State)
  {
    forall t: nat | t in s.queue :: t < |s.pc| && (s.pc[t].LockAsleep? || s.pc[t].LockBlocked?)
  }

  /** No lost wake-up: while the mutex is free and threads are queued, someone is about to serve them. */
  ghost predicate ServeOk(s: State)
  {
    !s.held && s.queue != {} ==> exists u: nat :: WillServe(s, u)
  }

  ghost predicate Inv(s: State)
  {
    SpinOk(s) && OwnerOk(s) && QueueOk(s) && ServeOk(s)
  }

  /** Two threads are never in the critical section together. */
  ghost predicate MutualExclusion(s: State)
  {
    forall t: nat, u: nat | t < |s.pc| && u < |s.pc| && t != u :: !(s.pc[t].Critical? && s.pc[u].Critical?)
  }

  lemma InitialInv(s: State)
    requires Initial(s)
    ensures Inv(s)
  {
  }

  /** A step moves one thread only. */
  lemma StepMoves(s: State, s': State, t: nat)
    requires Step(s, s', t)
    ensures t < |s.pc| == |s'.pc| && forall u: nat | u < |s.pc| && u != t :: s'.pc[u] == s.pc[u]
  {
  }

  lemma StepSpin(s: State, s': State, t: nat)
    requires SpinOk(s) && Step(s, s', t)
    ensures SpinOk(s')
  {
    StepMoves(s, s', t);
  }

  /** A thread comes to own the mutex only by finding the flag clear; one that gives it up clears the flag. */
  lemma StepOwner(s: State, s': State, t: nat)
    requires OwnerOk(s) && Step(s, s', t)
    ensures OwnerOk(s')
  {
    StepMoves(s, s', t);
    if Owns(s'.pc[t]) && !Owns(s.pc[t]) {
      assert s.pc[t].LockCheck? && !s.held && s'.held;
    } else if Owns(s.pc[t]) && !Owns(s'.pc[t]) {
      assert s.pc[t].UnlockClear? && !s'.held;
    } else {
      assert s'.held == s.held;
      if s.held {
        var u: nat :| u < |s.pc| && Owns(s.pc[u]);
        assert Owns(s'.pc[u]);
      }
    }
  }

  lemma StepQueue(s: State, s': State, t: nat)
    requires QueueOk(s) && Step(s, s', t)
    ensures QueueOk(s')
  {
    StepMoves(s, s', t);
  }

  /** Who serves the queue after a step. */
  lemma StepServes(s: State, s': State, t: nat)
    requires SpinOk(s) && OwnerOk(s) && QueueOk(s) && ServeOk(s) && Step(s, s', t)
    ensures ServeOk(s')
  {
    StepMoves(s, s', t);
    if !s'.held && s'.queue != {} {
      if s.held {
        assert WillServe(s', t);
      } else if s.pc[t].UnlockWake? {
        var w: nat :| LowestIn(s.queue, w) && s'.queue == s.queue - {w};
        assert WillServe(s', w);
      } else {
        var u: nat :| WillServe(s, u);
        assert WillServe(s', u);
      }
    }
  }

  lemma StepInv(s: State, s': State, t: nat)
    requires Inv(s) && Step(s, s', t)
    ensures Inv(s')
  {
    hide Step, SpinOk, OwnerOk, QueueOk, ServeOk;
    StepSpin(s, s', t);
    StepOwner(s, s', t);
    StepQueue(s, s', t);
    StepServes(s, s', t);
  }

  // ---------- over all runs ----------

  lemma {:induction false} RunInv(run: seq<State>, k: nat)
    requires Run(run) && k < |run|
    ensures Inv(run[k])
  {
    hide Inv, Step, Initial;
    if k == 0 {
      InitialInv(run[0]);
    } else {
      RunInv(run, k - 1);
      assert Moves(run[k - 1], run[k - 1 + 1]);
      var t: nat :| Step(run[k - 1], run[k], t);
      StepInv(run[k - 1], run[k], t);
    }
  }

  /** Mutual exclusion, and no wake-up lost, in every state of every run. */
  lemma RunsAreSafe(run: seq<State>, k: nat)
    requires Run(run) && k < |run|
    ensures MutualExclusion(run[k])
    ensures !run[k].held && run[k].queue != {} ==> exists u: nat :: WillServe(run[k], u)
    ensures run[k].held <==> exists t: nat :: t < |run[k].pc| && Owns(run[k].pc[t])
  {
    RunInv(run, k);
  }

  /** Thread t can take a step. */
  ghost predicate CanStep(s: State, t: nat)
  {
    exists s': State :: Step(s, s', t)
  }

  lemma LowestExists(q: set<nat>) returns (w: nat)
    requires q != {}
    ensures LowestIn(q, w)
    decreases |q|
  {
    var x :| x in q;
    if q == {x} {
      w := x;
    } else {
      var rest := q - {x};
      assert q == {x} + rest;
      var y := LowestExists(rest);
      w := if x < y then x else y;
      forall j: nat | j in q
        ensures w <= j
      {
        assert j == x || j in rest;
      }
    }
  }

  /** The owner of the spin lock is never blocked. */
  lemma SpinOwnerCanStep(s: State, t: nat)
    requires t < |s.pc| && HoldsSpin(s.pc[t])
    ensures CanStep(s, t)
  {
    var p := s.pc[t];
    var s' :=
      if p.LockCheck? && !s.held then s.(held := true, pc := Moved(s, t, LockTaken))
      else if p.LockCheck? then s.(queue := s.queue + {t}, pc := Moved(s, t, LockAsleep))
      else if p.UnlockClear? then s.(held := false, pc := Moved(s, t, UnlockDone))
      else s.(spin := FREE, pc := Moved(s, t, if p.LockTaken? then Critical else if p.LockAsleep? then LockBlocked else UnlockWake));
    assert Step(s, s', t);
  }

  /** A thread that owns the mutex or will serve the queue can step unless it waits for the spin lock. */
  lemma ActiveCanStep(s: State, u: nat)
    requires u < |s.pc| && s.spin == FREE && (Owns(s.pc[u]) || WillServe(s, u)) && !HoldsSpin(s.pc[u])
    ensures CanStep(s, u)
  {
    if s.pc[u].UnlockWake? && s.queue != {} {
      var w := LowestExists(s.queue);
      assert Step(s, s.(queue := s.queue - {w}, pc := Moved(s, u, Outside)), u);
    } else {
      var p := s.pc[u];
      var s' :=
        if p.LockSpin? then s.(spin := u, pc := Moved(s, u, LockCheck(p.woken)))
        else if p.UnlockSpin? then s.(spin := u, pc := Moved(s, u, UnlockClear))
        else s.(pc := Moved(s, u, if p.LockBlocked? then LockSpin(true) else if p.Critical? then UnlockSpin else Outside));
      assert Step(s, s', u);
    }
  }

  predicate Active(s: State, u: nat)
  {
    u < |s.pc| && (HoldsSpin(s.pc[u]) || Owns(s.pc[u]) || WillServe(s, u))
  }

  /** Parked threads never deadlock: while anyone is queued, some thread that owns the mutex, holds the spin lock or will serve the queue can step. */
  lemma ParkedNeverDeadlock(run: seq<State>, k: nat)
    requires Run(run) && k < |run| && run[k].queue != {}
    ensures exists u: nat :: Active(run[k], u) && CanStep(run[k], u)
  {
    hide Step;
    var s := run[k];
    RunInv(run, k);
    if s.spin != FREE {
      SpinOwnerCanStep(s, s.spin);
    } else if s.held {
      var u: nat :| u < |s.pc| && Owns(s.pc[u]);
      ActiveCanStep(s, u);
    } else {
      var u: nat :| WillServe(s, u);
      ActiveCanStep(s, u);
    }
  }
}
