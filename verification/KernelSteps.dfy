/** What each step of the kernel does to the ring, the objects and the sleep table, and what
    follows for the processes: a READY process gets the processor within one round. */
module KernelSteps {
  import opened Basics
  import opened WaitSlots
  import M = Mutexes
  import S = Semaphores
  import T = SleepTable
  import opened Scheduler
  import R = SchedulerRounds
  import opened KernelRuns

  // ---------------------------------------------------------------- the steps

  /** The ring with its current process in another state. */
  function WithLast(v: seq<Proc>, st: ProcessState): seq<Proc>
    requires v != []
  {
    v[..|v| - 1] + [Proc(v[|v| - 1].pid, st)]
  }

  /** The scheduler ran on ring w. */
  ghost predicate Switched(w: seq<Proc>, z: Kernel) {
    z.started && exists c: nat :: R.HandsOver(w, z.ring, c)
  }

  /** Process p became READY and nobody else changed. */
  ghost predicate Woke(v: seq<Proc>, z: seq<Proc>, p: int) {
    |z| == |v| && forall i :: 0 <= i < |v| ==> z[i] == if v[i].pid == p then Proc(p, READY) else v[i]
  }

  ghost predicate SameSems(k: Kernel, z: Kernel) { z.sems == k.sems }

  ghost predicate SameMutexes(k: Kernel, z: Kernel) { z.mutexes == k.mutexes }

  ghost predicate SameTable(k: Kernel, z: Kernel) { z.sleepers == k.sleepers && z.sleepSlots == k.sleepSlots }

  /** lockMutex: an open mutex is closed and the caller goes on; at a closed one the caller is
      BLOCKED in a slot of it and the scheduler runs. */
  ghost predicate LockDoes(k: Kernel, i: nat, z: Kernel)
    requires i < |k.mutexes| && k.ring != []
  {
    var m := k.mutexes[i];
    && SameSems(k, z) && SameTable(k, z)
    && |z.mutexes| == |k.mutexes| && (forall j :: 0 <= j < |k.mutexes| && j != i ==> z.mutexes[j] == k.mutexes[j])
    && z.mutexes[i].word == 1
    && if m.word == 0 then
         z.ring == k.ring && z.started == k.started && z.mutexes[i].queue == m.queue
       else
         && Waiters(z.mutexes[i].queue) == Waiters(m.queue) + multiset{CurrentPid(k)}
         && Switched(WithLast(k.ring, BLOCKED), z)
  }

  /** freeMutex: the waiter in the lowest slot gets the mutex and becomes READY; without a
      waiter the mutex opens. */
  ghost predicate FreeDoes(k: Kernel, i: nat, z: Kernel)
    requires i < |k.mutexes|
  {
    var q := k.mutexes[i].queue;
    && SameSems(k, z) && SameTable(k, z) && z.started == k.started
    && |z.mutexes| == |k.mutexes| && (forall j :: 0 <= j < |k.mutexes| && j != i ==> z.mutexes[j] == k.mutexes[j])
    && if Waiters(q) == multiset{} then
         z.ring == k.ring && z.mutexes[i].word == 0 && z.mutexes[i].queue == q
       else
         && z.mutexes[i].word == 1
         && exists p: int :: Lowest(q, p) && Woke(k.ring, z.ring, p)
                          && Waiters(z.mutexes[i].queue) == Waiters(q) - multiset{p}
  }

  /** wait: a caller that finds a unit goes on; another is BLOCKED in a slot and the scheduler runs. */
  ghost predicate WaitDoes(k: Kernel, i: nat, z: Kernel)
    requires i < |k.sems| && k.ring != []
  {
    var s := k.sems[i];
    && SameMutexes(k, z) && SameTable(k, z)
    && |z.sems| == |k.sems| && (forall j :: 0 <= j < |k.sems| && j != i ==> z.sems[j] == k.sems[j])
    && z.sems[i].value == s.value - 1
    && if s.value > 0 then
         z.ring == k.ring && z.started == k.started && z.sems[i].queue == s.queue
       else
         && Waiters(z.sems[i].queue) == Waiters(s.queue) + multiset{CurrentPid(k)}
         && Switched(WithLast(k.ring, BLOCKED), z)
  }

  /** signal: the waiter in the lowest slot becomes READY; without a waiter the unit is stored. */
  ghost predicate SignalDoes(k: Kernel, i: nat, z: Kernel)
    requires i < |k.sems|
  {
    var q := k.sems[i].queue;
    && SameMutexes(k, z) && SameTable(k, z) && z.started == k.started
    && |z.sems| == |k.sems| && (forall j :: 0 <= j < |k.sems| && j != i ==> z.sems[j] == k.sems[j])
    && z.sems[i].value == k.sems[i].value + 1
    && if Waiters(q) == multiset{} then
         z.ring == k.ring && z.sems[i].queue == q
       else
         exists p: int :: Lowest(q, p) && Woke(k.ring, z.ring, p)
                       && Waiters(z.sems[i].queue) == Waiters(q) - multiset{p}
  }

  /** sleep: the caller gets an entry, is SLEEPING, and the scheduler runs. */
  ghost predicate SleepDoes(k: Kernel, n: int, z: Kernel)
    requires k.ring != []
  {
    && SameMutexes(k, z) && SameSems(k, z) && z.sleepSlots == k.sleepSlots
    && z.sleepers == k.sleepers + [T.Sleeper(CurrentPid(k), 0, n)]
    && Switched(WithLast(k.ring, SLEEPING), z)
  }

  /** Entry j is of process p and reaches its alarm with this tick. */
  predicate DueAt(t: seq<T.Sleeper>, p: int, j: nat) {
    j < |t| && t[j].pid == p && t[j].counter + 1 == t[j].alarm
  }

  ghost predicate DueNow(t: seq<T.Sleeper>, p: int) {
    exists j: nat :: DueAt(t, p, j)
  }

  /** The ring at the end of the timer's walk: whoever is due is READY, and so is the process
      that was interrupted. */
  ghost predicate AfterWalk(v: seq<Proc>, t: seq<T.Sleeper>, w: seq<Proc>) {
    |w| == |v| && forall i :: 0 <= i < |v| ==>
      w[i] == if i == |v| - 1 || DueNow(t, v[i].pid) then Proc(v[i].pid, READY) else v[i]
  }

  /** The timer interrupt: entries that reach their alarm go and their processes become READY,
      the others grow by one tick, and then the scheduler runs. */
  ghost predicate TickDoes(k: Kernel, z: Kernel) {
    && SameMutexes(k, z) && SameSems(k, z) && z.sleepSlots == k.sleepSlots
    && multiset(z.sleepers) == T.Stay(k.sleepers)
    && exists w: seq<Proc> :: AfterWalk(k.ring, k.sleepers, w) && Switched(w, z)
  }

  ghost predicate Does(k: Kernel, step: Step, z: Kernel)
    requires k.ring != []
  {
    match step
    case LockStep(i) => if i < |k.mutexes| then LockDoes(k, i, z) else z == k
    case FreeStep(i) => if i < |k.mutexes| then FreeDoes(k, i, z) else z == k
    case WaitStep(i) => if i < |k.sems| then WaitDoes(k, i, z) else z == k
    case SignalStep(i) => if i < |k.sems| then SignalDoes(k, i, z) else z == k
    case SleepStep(n) => SleepDoes(k, n, z)
    case TickStep => TickDoes(k, z)
    case YieldStep =>
      SameMutexes(k, z) && SameSems(k, z) && SameTable(k, z) && Switched(WithLast(k.ring, READY), z)
  }

  // ---------------------------------------------------------------- what the functions compute

  lemma SelectSwitches(k: Kernel, w: seq<Proc>)
    requires CanSchedule(w)
    ensures Switched(w, k.(ring := Select(w, FirstReady(w)), started := true))
  {
    R.SelectHandsOver(w);
  }

  /** schedule on a ring whose current process is not RUNNING any more. */
  lemma DispatchSwitches(k: Kernel)
    requires k.ring != [] && k.ring[|k.ring| - 1].state != RUNNING && CanSchedule(k.ring)
    ensures Switched(k.ring, Dispatch(k))
  {
    assert Demoted(k.ring) == k.ring;
    SelectSwitches(k, k.ring);
  }

  lemma DispatchFrom(k: Kernel)
    requires k.ring != [] && CanSchedule(Demoted(k.ring))
    requires k.ring[|k.ring| - 1].state == RUNNING || k.ring[|k.ring| - 1].state == READY
    ensures Switched(WithLast(k.ring, READY), Dispatch(k))
  {
    SelectSwitches(k, Demoted(k.ring));
    DemotedIs(k.ring);
    assert Demoted(k.ring) == WithLast(k.ring, READY);
  }

  lemma LeaveSwitches(k: Kernel, parked: multiset<int>, asleep: multiset<int>, st: ProcessState)
    requires RingOk(k.ring, parked, asleep) && CurrentPid(k) != INIT_PID && (st == BLOCKED || st == SLEEPING)
    ensures Switched(WithLast(k.ring, st), KernelRuns.Leave(k, st))
  {
    LeaveProcessor(k.ring, parked, asleep, st);
    var w := k.(ring := ChangeState(k.ring, CurrentPid(k), st));
    assert w.ring == WithLast(k.ring, st);
    ScheduleSettled(w.ring, With1(parked, CurrentPid(k), st == BLOCKED), With1(asleep, CurrentPid(k), st == SLEEPING));
    DispatchSwitches(w);
  }

  lemma ChangeWakes(v: seq<Proc>, p: int)
    requires R.Distinct(v)
    ensures Woke(v, ChangeState(v, p, READY), p)
  {
    forall i | 0 <= i < |v| ensures ChangeState(v, p, READY)[i] == if v[i].pid == p then Proc(p, READY) else v[i] {
      if v[i].pid == p {
        R.IndexOfUnique(v, i);
      }
    }
  }

  /** A caller that leaves the processor changes nothing but the ring. */
  lemma LeaveFrame(k: Kernel, st: ProcessState)
    ensures var z := KernelRuns.Leave(k, st);
            SameMutexes(k, z) && SameSems(k, z) && SameTable(k, z)
  {
  }

  lemma QueuedMeets(k: Kernel, i: nat, m: M.MutexState)
    requires Inv(k) && i < |k.mutexes| && k.mutexes[i].word != 0 && CurrentPid(k) != INIT_PID
    requires m.word == 1 && Waiters(m.queue) == Waiters(k.mutexes[i].queue) + multiset{CurrentPid(k)}
    ensures LockDoes(k, i, KernelRuns.Leave(k.(mutexes := k.mutexes[i := m]), BLOCKED))
  {
    var k' := k.(mutexes := k.mutexes[i := m]);
    LeaveFrame(k', BLOCKED);
    LeaveSwitches(k', Parked(k), Sleeping(k.sleepers), BLOCKED);
  }

  lemma AcquiredIs(m: M.MutexState, pid: int)
    requires M.Valid(m) && m.word == 0
    ensures M.Lock(m, pid) == (m.(word := 1), M.Acquired)
  {
  }

  lemma LockMeets(k: Kernel, i: nat)
    requires Inv(k) && i < |k.mutexes| && Provided(k, LockStep(i))
    ensures LockDoes(k, i, ExecLock(k, i))
  {
    M.LockEffect(k.mutexes[i], CurrentPid(k));
    if k.mutexes[i].word == 0 {
      AcquiredIs(k.mutexes[i], CurrentPid(k));
    } else {
      QueuedMeets(k, i, M.Lock(k.mutexes[i], CurrentPid(k)).0);
    }
  }

  lemma FreeMeets(k: Kernel, i: nat)
    requires Inv(k) && i < |k.mutexes|
    ensures FreeDoes(k, i, ExecFree(k, i))
  {
    var at := LeaveTakesLowest(k.mutexes[i].queue);
    var woken := M.Free(k.mutexes[i]).1;
    if woken.Some? {
      ChangeWakes(k.ring, woken.value);
    }
  }

  lemma WaitMeets(k: Kernel, i: nat)
    requires Inv(k) && i < |k.sems| && Provided(k, WaitStep(i))
    ensures WaitDoes(k, i, ExecWait(k, i))
  {
    var (s, out) := S.Wait(k.sems[i], CurrentPid(k));
    S.WaitEffect(k.sems[i], CurrentPid(k));
    var k' := k.(sems := k.sems[i := s]);
    if out == S.Parked {
      LeaveFrame(k', BLOCKED);
      LeaveSwitches(k', Parked(k), Sleeping(k.sleepers), BLOCKED);
    }
  }

  lemma SignalMeets(k: Kernel, i: nat)
    requires Inv(k) && i < |k.sems|
    ensures SignalDoes(k, i, ExecSignal(k, i))
  {
    var at := LeaveTakesLowest(k.sems[i].queue);
    var woken := S.Signal(k.sems[i]).1;
    if woken.Some? {
      ChangeWakes(k.ring, woken.value);
    }
  }

  lemma SleepMeets(k: Kernel, n: int)
    requires Inv(k) && Provided(k, SleepStep(n))
    ensures SleepDoes(k, n, ExecSleep(k, n))
  {
    var k' := k.(sleepers := T.Add(k.sleepers, k.sleepSlots, CurrentPid(k), n));
    LeaveFrame(k', SLEEPING);
    LeaveSwitches(k', Parked(k), Sleeping(k.sleepers), SLEEPING);
  }

  // ---------------------------------------------------------------- the tick

  lemma {:induction false} WakeAllAt(v: seq<Proc>, woken: seq<int>, i: nat)
    requires R.Distinct(v) && i < |v|
    ensures |WakeAll(v, woken)| == |v|
    ensures WakeAll(v, woken)[i] == if v[i].pid in woken then Proc(v[i].pid, READY) else v[i]
    decreases |woken|
  {
    if woken != [] {
      var u := ChangeState(v, woken[0], READY);
      ChangeWakes(v, woken[0]);
      SamePids(v, u, woken[0]);
      WakeAllAt(u, woken[1..], i);
    }
  }

  lemma SamePids(v: seq<Proc>, u: seq<Proc>, p: int)
    requires R.Distinct(v) && Woke(v, u, p)
    ensures R.Distinct(u) && forall i :: 0 <= i < |v| ==> u[i].pid == v[i].pid
  {
  }

  /** The pids of due entries, by entry and as a bag. */
  lemma {:induction false} DueIffWoken(t: seq<T.Sleeper>, p: int)
    ensures p in T.Wake(t) <==> DueNow(t, p)
    decreases |t|
  {
    if t != [] {
      var rest := t[1..];
      DueIffWoken(rest, p);
      if DueNow(t, p) && !DueAt(t, p, 0) {
        var j: nat :| DueAt(t, p, j);
        assert DueAt(rest, p, j - 1);
      }
      if DueNow(rest, p) {
        var j: nat :| DueAt(rest, p, j);
        assert DueAt(t, p, j + 1);
      }
      assert DueAt(t, p, 0) <==> p in T.WakeOne(t[0]);
    }
  }

  lemma WalkWakes(v: seq<Proc>, t: seq<T.Sleeper>)
    requires R.Distinct(v) && v != []
    ensures var w := WakeAll(v, T.Walk(t, 0).1);
            |w| == |v| && AfterWalk(v, t, WithLast(w, READY))
  {
    var woken := T.Walk(t, 0).1;
    var w := WakeAll(v, woken);
    WakeAllAt(v, woken, 0);
    T.TickVisitsEveryEntryOnce(t);
    forall i | 0 <= i < |v|
      ensures WithLast(w, READY)[i]
              == if i == |v| - 1 || DueNow(t, v[i].pid) then Proc(v[i].pid, READY) else v[i]
    {
      WakeAllAt(v, woken, i);
      DueIffWoken(t, v[i].pid);
      assert v[i].pid in woken <==> v[i].pid in multiset(woken);
    }
  }

  lemma TickMeets(k: Kernel)
    requires Inv(k)
    ensures TickDoes(k, ExecTick(k))
  {
    var (t, woken) := T.Walk(k.sleepers, 0);
    var k' := k.(sleepers := t, ring := WakeAll(k.ring, woken));
    T.TickVisitsEveryEntryOnce(k.sleepers);
    WalkWakes(k.ring, k.sleepers);
    WalkMovesPids(k.sleepers, 0);
    WakeAllKeepsRing(k.ring, Parked(k), Sleeping(t), woken);
    DispatchOk(k');
    DispatchFrom(k');
  }

  lemma YieldMeets(k: Kernel)
    requires Inv(k)
    ensures Does(k, YieldStep, Dispatch(k))
  {
    DispatchOk(k);
    DispatchFrom(k);
  }

  lemma MutexStepMeets(k: Kernel, step: Step)
    requires Inv(k) && Provided(k, step) && (step.LockStep? || step.FreeStep?)
    ensures Does(k, step, Exec(k, step))
  {
    if step.m < |k.mutexes| {
      if step.LockStep? {
        LockMeets(k, step.m);
      } else {
        FreeMeets(k, step.m);
      }
    }
  }

  lemma SemStepMeets(k: Kernel, step: Step)
    requires Inv(k) && Provided(k, step) && (step.WaitStep? || step.SignalStep?)
    ensures Does(k, step, Exec(k, step))
  {
    if step.s < |k.sems| {
      if step.WaitStep? {
        WaitMeets(k, step.s);
      } else {
        SignalMeets(k, step.s);
      }
    }
  }

  /** Every step does what is said above. */
  lemma StepMeets(k: Kernel, step: Step)
    requires Inv(k) && Provided(k, step)
    ensures Does(k, step, Exec(k, step))
  {
    match step {
      case LockStep(_) => MutexStepMeets(k, step);
      case FreeStep(_) => MutexStepMeets(k, step);
      case WaitStep(_) => SemStepMeets(k, step);
      case SignalStep(_) => SemStepMeets(k, step);
      case SleepStep(n) => SleepMeets(k, n);
      case TickStep => TickMeets(k);
      case YieldStep => YieldMeets(k);
    }
  }

  // ---------------------------------------------------------------- READY processes are served

  /** Process p is READY, with d others before it in the ring. */
  predicate WaitsAt(k: Kernel, p: int, d: nat) {
    d < |k.ring| - 1 && k.ring[d] == Proc(p, READY)
  }

  /** Every process but the last of `n` is as it was or became READY. */
  ghost predicate OnlyWakes(v: seq<Proc>, w: seq<Proc>, n: nat) {
    |w| == |v| && forall i :: 0 <= i < n && i < |v| ==> w[i] == v[i] || w[i] == Proc(v[i].pid, READY)
  }

  ghost predicate RingSwitched(v: seq<Proc>, z: Kernel) {
    v != [] && exists w: seq<Proc> :: OnlyWakes(v, w, |v| - 1) && Switched(w, z)
  }

  predicate IsSwitch(step: Step) { step.TickStep? || step.YieldStep? }

  lemma LastSwitched(v: seq<Proc>, st: ProcessState, z: Kernel)
    requires v != [] && Switched(WithLast(v, st), z)
    ensures RingSwitched(v, z)
  {
    assert OnlyWakes(v, WithLast(v, st), |v| - 1);
  }

  lemma WalkSwitched(v: seq<Proc>, t: seq<T.Sleeper>, w: seq<Proc>, z: Kernel)
    requires v != [] && AfterWalk(v, t, w) && Switched(w, z)
    ensures RingSwitched(v, z)
  {
    assert OnlyWakes(v, w, |v| - 1);
  }

  /** Every step runs the scheduler or leaves the ring in place; a tick and a yield do the former. */
  lemma DoesToRing(k: Kernel, step: Step, z: Kernel)
    requires k.ring != [] && Does(k, step, z)
    ensures RingSwitched(k.ring, z) || (!IsSwitch(step) && OnlyWakes(k.ring, z.ring, |k.ring|))
  {
    match step {
      case LockStep(i) => if i < |k.mutexes| && k.mutexes[i].word != 0 { LastSwitched(k.ring, BLOCKED, z); }
      case FreeStep(i) =>
      case WaitStep(i) => if i < |k.sems| && k.sems[i].value <= 0 { LastSwitched(k.ring, BLOCKED, z); }
      case SignalStep(i) =>
      case SleepStep(n) => LastSwitched(k.ring, SLEEPING, z);
      case TickStep =>
        var w: seq<Proc> :| AfterWalk(k.ring, k.sleepers, w) && Switched(w, z);
        WalkSwitched(k.ring, k.sleepers, w, z);
      case YieldStep => LastSwitched(k.ring, READY, z);
    }
  }

  /** When the scheduler runs on w, a READY process is chosen or comes closer. */
  lemma SwitchBringsCloser(w: seq<Proc>, z: Kernel, p: int, d: nat)
    requires d < |w| - 1 && w[d] == Proc(p, READY) && Switched(w, z)
    ensures CurrentPid(z) == p || exists e :: 0 <= e < d && WaitsAt(z, p, e)
  {
    var c: nat :| R.HandsOver(w, z.ring, c);
    assert c < d ==> WaitsAt(z, p, d - c - 1);
  }

  lemma StepToRing(k: Kernel, step: Step)
    requires Inv(k) && Provided(k, step)
    ensures var z := Exec(k, step);
            RingSwitched(k.ring, z) || (!IsSwitch(step) && OnlyWakes(k.ring, z.ring, |k.ring|))
  {
    StepMeets(k, step);
    DoesToRing(k, step, Exec(k, step));
  }

  lemma RingSwitchBringsCloser(k: Kernel, z: Kernel, p: int, d: nat) returns (e: nat)
    requires WaitsAt(k, p, d) && RingSwitched(k.ring, z)
    ensures CurrentPid(z) == p || (e < d && WaitsAt(z, p, e))
  {
    var w: seq<Proc> :| OnlyWakes(k.ring, w, |k.ring| - 1) && Switched(w, z);
    SwitchBringsCloser(w, z, p, d);
    e := 0;
    if CurrentPid(z) != p {
      e :| 0 <= e < d && WaitsAt(z, p, e);
    }
  }

  /** A step keeps a READY process in its place or brings it closer to the processor; a tick
      and a yield always do the latter. */
  lemma StepBringsCloser(k: Kernel, step: Step, p: int, d: nat) returns (e: nat)
    requires Inv(k) && Provided(k, step) && WaitsAt(k, p, d)
    ensures var z := Exec(k, step);
            || CurrentPid(z) == p
            || (e <= d && WaitsAt(z, p, e) && (IsSwitch(step) ==> e < d))
  {
    var z := Exec(k, step);
    StepToRing(k, step);
    if RingSwitched(k.ring, z) {
      e := RingSwitchBringsCloser(k, z, p, d);
    } else {
      e := d;
    }
  }

  function Switches(steps: seq<Step>): nat {
    if steps == [] then 0 else (if IsSwitch(steps[0]) then 1 else 0) + Switches(steps[1..])
  }

  lemma RunPrefix(k: Kernel, steps: seq<Step>, i: nat)
    requires 0 < i <= |steps|
    ensures Run(k, steps[..i]) == Run(Exec(k, steps[0]), steps[1..][..i - 1])
  {
    assert steps[..i][1..] == steps[1..][..i - 1];
  }

  /** In every run of the kernel: a READY process with d others before it gets the processor
      before d + 1 ticks or yields are over, whatever locks, waits, signals and sleeps come in
      between. */
  lemma {:induction false} ReadyProcessIsServed(k: Kernel, steps: seq<Step>, p: int, d: nat) returns (i: nat)
    requires Inv(k) && AllProvided(k, steps) && WaitsAt(k, p, d) && Switches(steps) > d
    ensures i <= |steps| && CurrentPid(Run(k, steps[..i])) == p
    decreases |steps|
  {
    var z := Exec(k, steps[0]);
    var e := StepBringsCloser(k, steps[0], p, d);
    StepKeepsInv(k, steps[0]);
    if CurrentPid(z) == p {
      i := 1;
      assert Run(z, []) == z;
    } else {
      i := ReadyProcessIsServed(z, steps[1..], p, e);
      i := i + 1;
    }
    RunPrefix(k, steps, i);
  }

  // ---------------------------------------------------------------- sleepers are served

  /** Process p has an entry with r more ticks to go. */
  ghost predicate SleepsFor(t: seq<T.Sleeper>, p: int, r: int) {
    exists j :: 0 <= j < |t| && t[j].pid == p && t[j].alarm - t[j].counter == r
  }

  function Ticks(steps: seq<Step>): nat {
    if steps == [] then 0 else (if steps[0].TickStep? then 1 else 0) + Ticks(steps[1..])
  }

  lemma {:induction false} TicksAreSwitches(steps: seq<Step>)
    ensures Ticks(steps) <= Switches(steps)
    decreases |steps|
  {
    if steps != [] {
      TicksAreSwitches(steps[1..]);
    }
  }

  /** A process with an entry is in the ring, SLEEPING, and not the current one. */
  lemma SleeperInRing(k: Kernel, p: int, r: int) returns (i: nat)
    requires Inv(k) && SleepsFor(k.sleepers, p, r)
    ensures i < |k.ring| - 1 && k.ring[i] == Proc(p, SLEEPING) && CurrentPid(k) != p
  {
    var j :| 0 <= j < |k.sleepers| && k.sleepers[j].pid == p && k.sleepers[j].alarm - k.sleepers[j].counter == r;
    assert PidSeq(k.sleepers)[j] in Sleeping(k.sleepers);
    assert HasPid(k.ring, p);
    i :| 0 <= i < |k.ring| && k.ring[i].pid == p;
    assert i < |k.ring| - 1 ==> Settled(k.ring[i], Parked(k), Sleeping(k.sleepers));
  }

  lemma {:induction false} StayHas(t: seq<T.Sleeper>, j: nat)
    requires j < |t| && !T.Due(t[j])
    ensures T.Aged(t[j]) in T.Stay(t)
    decreases |t|
  {
    if j > 0 {
      StayHas(t[1..], j - 1);
    }
  }

  lemma DoesToTable(k: Kernel, step: Step, z: Kernel)
    requires k.ring != [] && Does(k, step, z) && !step.TickStep?
    ensures |k.sleepers| <= |z.sleepers| && forall j :: 0 <= j < |k.sleepers| ==> z.sleepers[j] == k.sleepers[j]
  {
  }

  lemma TickAgesEntry(t: seq<T.Sleeper>, u: seq<T.Sleeper>, p: int, r: int)
    requires multiset(u) == T.Stay(t) && SleepsFor(t, p, r) && r != 1
    ensures SleepsFor(u, p, r - 1)
  {
    var j :| 0 <= j < |t| && t[j].pid == p && t[j].alarm - t[j].counter == r;
    StayHas(t, j);
    assert T.Aged(t[j]) in multiset(u);
    var i :| 0 <= i < |u| && u[i] == T.Aged(t[j]);
  }

  /** A step that is no tick keeps every entry; a tick takes one off the ticks to go. */
  lemma StepKeepsEntry(k: Kernel, step: Step, p: int, r: int)
    requires Inv(k) && Provided(k, step) && SleepsFor(k.sleepers, p, r) && (step.TickStep? ==> r != 1)
    ensures SleepsFor(Exec(k, step).sleepers, p, if step.TickStep? then r - 1 else r)
  {
    StepMeets(k, step);
    if step.TickStep? {
      TickAgesEntry(k.sleepers, Exec(k, step).sleepers, p, r);
    } else {
      DoesToTable(k, step, Exec(k, step));
    }
  }

  /** The last tick of a sleep: the process gets the processor at once or is READY in the ring. */
  lemma LastTickWakes(k: Kernel, p: int) returns (e: nat)
    requires Inv(k) && SleepsFor(k.sleepers, p, 1)
    ensures var z := Exec(k, TickStep);
            |z.ring| == |k.ring| && (CurrentPid(z) == p || WaitsAt(z, p, e))
  {
    var i := SleeperInRing(k, p, 1);
    var z := Exec(k, TickStep);
    var j :| 0 <= j < |k.sleepers| && k.sleepers[j].pid == p && k.sleepers[j].alarm - k.sleepers[j].counter == 1;
    assert DueAt(k.sleepers, p, j);
    StepMeets(k, TickStep);
    var w: seq<Proc> :| AfterWalk(k.ring, k.sleepers, w) && Switched(w, z);
    SwitchBringsCloser(w, z, p, i);
    e := 0;
    if CurrentPid(z) != p {
      e :| 0 <= e < i && WaitsAt(z, p, e);
    }
  }

  lemma StepKeepsSize(k: Kernel, step: Step)
    requires Inv(k) && Provided(k, step)
    ensures |Exec(k, step).ring| == |k.ring|
  {
    StepToRing(k, step);
  }

  /** Until the last of its ticks a sleeper is not the current process. */
  lemma {:induction false} SleepsUntilAlarm(k: Kernel, steps: seq<Step>, p: int, r: int)
    requires Inv(k) && AllProvided(k, steps) && SleepsFor(k.sleepers, p, r) && Ticks(steps) < r
    ensures SleepsFor(Run(k, steps).sleepers, p, r - Ticks(steps)) && CurrentPid(Run(k, steps)) != p
    decreases |steps|
  {
    if steps == [] {
      var i := SleeperInRing(k, p, r);
    } else {
      StepKeepsEntry(k, steps[0], p, r);
      StepKeepsInv(k, steps[0]);
      SleepsUntilAlarm(Exec(k, steps[0]), steps[1..], p, if steps[0].TickStep? then r - 1 else r);
    }
  }

  /** After them it gets the processor within one more round of ticks. */
  lemma {:induction false} SleeperIsServed(k: Kernel, steps: seq<Step>, p: int, r: int) returns (i: nat)
    requires Inv(k) && AllProvided(k, steps) && SleepsFor(k.sleepers, p, r)
    requires r >= 1 && Ticks(steps) >= r + |k.ring| - 1
    ensures i <= |steps| && CurrentPid(Run(k, steps[..i])) == p
    decreases |steps|
  {
    var z, rest := Exec(k, steps[0]), steps[1..];
    StepKeepsInv(k, steps[0]);
    StepKeepsSize(k, steps[0]);
    if steps[0].TickStep? && r == 1 {
      var e := LastTickWakes(k, p);
      if CurrentPid(z) == p {
        i := 0;
        assert Run(z, []) == z;
      } else {
        TicksAreSwitches(rest);
        i := ReadyProcessIsServed(z, rest, p, e);
      }
    } else {
      StepKeepsEntry(k, steps[0], p, r);
      i := SleeperIsServed(z, rest, p, if steps[0].TickStep? then r - 1 else r);
    }
    i := i + 1;
    RunPrefix(k, steps, i);
  }

  /** A process that calls sleep for n ticks, n at least 1: in every run that follows it is not
      the current process before n ticks have passed, and it is before n + m - 1 have, where m
      is the number of processes. */
  lemma SleepReturnsInTime(k: Kernel, n: int, steps: seq<Step>) returns (i: nat)
    requires Inv(k) && Provided(k, SleepStep(n)) && n >= 1 && AllProvided(Exec(k, SleepStep(n)), steps)
    ensures Ticks(steps) < n ==> CurrentPid(Run(Exec(k, SleepStep(n)), steps)) != CurrentPid(k)
    ensures Ticks(steps) >= n + |k.ring| - 1 ==>
              i <= |steps| && CurrentPid(Run(Exec(k, SleepStep(n)), steps[..i])) == CurrentPid(k)
  {
    var z, p := Exec(k, SleepStep(n)), CurrentPid(k);
    StepMeets(k, SleepStep(n));
    StepKeepsInv(k, SleepStep(n));
    StepKeepsSize(k, SleepStep(n));
    assert z.sleepers[|k.sleepers|] == T.Sleeper(p, 0, n);
    assert SleepsFor(z.sleepers, p, n);
    i := 0;
    if Ticks(steps) < n {
      SleepsUntilAlarm(z, steps, p, n);
    }
    if Ticks(steps) >= n + |k.ring| - 1 {
      i := SleeperIsServed(z, steps, p, n);
    }
  }
}
