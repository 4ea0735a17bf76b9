/** Runs of the kernel as a whole: lock, free, wait, signal, sleep, timer ticks and
    yields over one ring of processes, any number of mutexes and semaphores and one
    sleep table. Every system call is one step, because interrupts stay off in it. */
module KernelRuns {
  import opened Basics
  import opened WaitSlots
  import M = Mutexes
  import S = Semaphores
  import T = SleepTable
  import opened Scheduler
  import R = SchedulerRounds

  /** The ring is in list order after the current process, which is last. `started`
      tells whether the scheduler has run since boot. */
  datatype Kernel = Kernel(
    ring: seq<Proc>, started: bool,
    mutexes: seq<M.MutexState>, sems: seq<S.SemState>,
    sleepers: seq<T.Sleeper>, sleepSlots: nat)

  datatype Step =
    | LockStep(m: nat)
    | FreeStep(m: nat)
    | WaitStep(s: nat)
    | SignalStep(s: nat)
    | SleepStep(interval: int)
    | TickStep
    | YieldStep

  // ---------------------------------------------------------------- who waits where

  /** The waiters of a list of queues, one occurrence for each slot. */
  ghost function BagOf(queues: seq<seq<int>>): multiset<int> {
    if queues == [] then multiset{} else Waiters(queues[0]) + BagOf(queues[1..])
  }

  ghost function MutexQueues(ms: seq<M.MutexState>): (q: seq<seq<int>>)
    ensures |q| == |ms| && forall i :: 0 <= i < |ms| ==> q[i] == ms[i].queue
  {
    seq(|ms|, i requires 0 <= i < |ms| => ms[i].queue)
  }

  ghost function SemQueues(ss: seq<S.SemState>): (q: seq<seq<int>>)
    ensures |q| == |ss| && forall i :: 0 <= i < |ss| ==> q[i] == ss[i].queue
  {
    seq(|ss|, i requires 0 <= i < |ss| => ss[i].queue)
  }

  /** Everybody parked in some slot of some wait queue. */
  ghost function Parked(k: Kernel): multiset<int> {
    BagOf(MutexQueues(k.mutexes)) + BagOf(SemQueues(k.sems))
  }

  ghost function PidSeq(t: seq<T.Sleeper>): (p: seq<int>)
    ensures |p| == |t| && forall i :: 0 <= i < |t| ==> p[i] == t[i].pid
  {
    seq(|t|, i requires 0 <= i < |t| => t[i].pid)
  }

  /** Everybody with an entry in the sleep table. */
  ghost function Sleeping(t: seq<T.Sleeper>): multiset<int> {
    multiset(PidSeq(t))
  }

  lemma {:induction false} BagOfUpdate(queues: seq<seq<int>>, i: nat, q: seq<int>, p: int)
    requires i < |queues|
    ensures BagOf(queues[i := q])[p] + Waiters(queues[i])[p] == BagOf(queues)[p] + Waiters(q)[p]
    ensures Waiters(queues[i])[p] <= BagOf(queues)[p]
    decreases |queues|
  {
    if i > 0 {
      BagOfUpdate(queues[1..], i - 1, q, p);
      assert queues[i := q][1..] == queues[1..][i - 1 := q];
    }
  }

  // ---------------------------------------------------------------- where a process may be

  /** A process other than the current one: READY and nowhere, BLOCKED in exactly
      one slot, or SLEEPING with exactly one entry. */
  ghost predicate Settled(x: Proc, parked: multiset<int>, asleep: multiset<int>) {
    || (x.state == READY && parked[x.pid] == 0 && asleep[x.pid] == 0)
    || (x.state == BLOCKED && parked[x.pid] == 1 && asleep[x.pid] == 0)
    || (x.state == SLEEPING && parked[x.pid] == 0 && asleep[x.pid] == 1)
  }

  /** The current process: RUNNING (READY before the first schedule) and nowhere. */
  ghost predicate Current(x: Proc, parked: multiset<int>, asleep: multiset<int>) {
    (x.state == RUNNING || x.state == READY) && parked[x.pid] == 0 && asleep[x.pid] == 0
  }

  ghost predicate HasPid(v: seq<Proc>, p: int) {
    exists i :: 0 <= i < |v| && v[i].pid == p
  }

  ghost predicate Known(v: seq<Proc>, parked: multiset<int>, asleep: multiset<int>) {
    && v != [] && R.Distinct(v) && (forall i :: 0 <= i < |v| ==> v[i].pid >= 0)
    && (forall p :: p in parked ==> HasPid(v, p)) && (forall p :: p in asleep ==> HasPid(v, p))
  }

  ghost predicate RingOk(v: seq<Proc>, parked: multiset<int>, asleep: multiset<int>) {
    && Known(v, parked, asleep)
    && (forall i :: 0 <= i < |v| - 1 ==> Settled(v[i], parked, asleep))
    && Current(v[|v| - 1], parked, asleep)
    && R.InitAlive(v)
  }

  /** The ring between the change of the current process and the schedule. */
  ghost predicate AllSettled(v: seq<Proc>, parked: multiset<int>, asleep: multiset<int>) {
    && Known(v, parked, asleep)
    && (forall i :: 0 <= i < |v| ==> Settled(v[i], parked, asleep))
    && HasReadyInit(v)
  }

  ghost predicate HasReadyInit(v: seq<Proc>) {
    var j := IndexOf(v, INIT_PID);
    j < |v| && v[j].state == READY
  }

  lemma KnownAfterUpdate(v: seq<Proc>, i: nat, st: ProcessState, parked: multiset<int>, asleep: multiset<int>,
                         parked': multiset<int>, asleep': multiset<int>)
    requires Known(v, parked, asleep) && i < |v|
    requires forall p :: (p in parked' || p in asleep') ==> p in parked || p in asleep || p == v[i].pid
    ensures Known(v[i := v[i].(state := st)], parked', asleep')
  {
    var w := v[i := v[i].(state := st)];
    forall p | p in parked' || p in asleep' ensures HasPid(w, p) {
      assert HasPid(v, p) by {
        if p == v[i].pid {
          assert v[i].pid == p;
        }
      }
      var j :| 0 <= j < |v| && v[j].pid == p;
      assert w[j].pid == p;
    }
  }

  /** The bag after process p entered a slot or an entry. */
  ghost function With1(bag: multiset<int>, p: int, enters: bool): multiset<int> {
    if enters then bag + multiset{p} else bag
  }

  /** The current process parks in a slot or in the sleep table. */
  lemma LeaveProcessor(v: seq<Proc>, parked: multiset<int>, asleep: multiset<int>, st: ProcessState)
    requires RingOk(v, parked, asleep) && v[|v| - 1].pid != INIT_PID && (st == BLOCKED || st == SLEEPING)
    ensures var cur := v[|v| - 1].pid;
            && ChangeState(v, cur, st) == v[|v| - 1 := v[|v| - 1].(state := st)]
            && AllSettled(ChangeState(v, cur, st),
                          With1(parked, cur, st == BLOCKED), With1(asleep, cur, st == SLEEPING))
  {
    var n, cur := |v|, v[|v| - 1].pid;
    R.IndexOfUnique(v, n - 1);
    KnownAfterUpdate(v, n - 1, st, parked, asleep,
                     With1(parked, cur, st == BLOCKED), With1(asleep, cur, st == SLEEPING));
    LeaverSettled(v, parked, asleep, st);
    InitAfterLeave(v, st);
  }

  lemma LeaverSettled(v: seq<Proc>, parked: multiset<int>, asleep: multiset<int>, st: ProcessState)
    requires v != [] && R.Distinct(v) && (st == BLOCKED || st == SLEEPING) && Current(v[|v| - 1], parked, asleep)
    requires forall i :: 0 <= i < |v| - 1 ==> Settled(v[i], parked, asleep)
    ensures var cur, w := v[|v| - 1].pid, v[|v| - 1 := v[|v| - 1].(state := st)];
            forall i :: 0 <= i < |v| ==>
              Settled(w[i], With1(parked, cur, st == BLOCKED), With1(asleep, cur, st == SLEEPING))
  {
    var n, cur, w := |v|, v[|v| - 1].pid, v[|v| - 1 := v[|v| - 1].(state := st)];
    forall i | 0 <= i < n ensures Settled(w[i], With1(parked, cur, st == BLOCKED), With1(asleep, cur, st == SLEEPING)) {
      if i < n - 1 {
        assert Settled(v[i], parked, asleep) && v[i].pid != v[n - 1].pid;
      }
    }
  }

  lemma InitAfterLeave(v: seq<Proc>, st: ProcessState)
    requires v != [] && R.Distinct(v) && R.InitAlive(v) && v[|v| - 1].pid != INIT_PID
    ensures HasReadyInit(v[|v| - 1 := v[|v| - 1].(state := st)])
  {
    var w, j := v[|v| - 1 := v[|v| - 1].(state := st)], IndexOf(v, INIT_PID);
    assert w[j] == v[j] && R.Distinct(w);
    R.IndexOfUnique(w, j);
  }

  /** The bags after process p left its slot or its entry. */
  ghost function Without1(bag: multiset<int>, p: int, leaves: bool): multiset<int> {
    if leaves then bag - multiset{p} else bag
  }

  lemma OtherSettled(x: Proc, parked: multiset<int>, asleep: multiset<int>, p: int, slot: bool)
    requires Settled(x, parked, asleep) && x.pid != p
    ensures Settled(x, Without1(parked, p, slot), Without1(asleep, p, !slot))
  {
  }

  lemma WokenSettled(x: Proc, parked: multiset<int>, asleep: multiset<int>, slot: bool)
    requires Settled(x, parked, asleep) && (if slot then x.pid in parked else x.pid in asleep)
    ensures Settled(x.(state := READY), Without1(parked, x.pid, slot), Without1(asleep, x.pid, !slot))
  {
  }

  lemma InitAfterWake(v: seq<Proc>, i: nat)
    requires R.Distinct(v) && R.InitAlive(v) && i < |v| - 1
    ensures R.InitAlive(v[i := v[i].(state := READY)])
  {
    var w, a := v[i := v[i].(state := READY)], IndexOf(v, INIT_PID);
    assert w[a].pid == INIT_PID && R.Distinct(w);
    R.IndexOfUnique(w, a);
  }

  lemma WakeAt(v: seq<Proc>, i: nat, parked: multiset<int>, asleep: multiset<int>, slot: bool)
    requires RingOk(v, parked, asleep) && i < |v| - 1 && (if slot then v[i].pid in parked else v[i].pid in asleep)
    ensures RingOk(v[i := v[i].(state := READY)], Without1(parked, v[i].pid, slot), Without1(asleep, v[i].pid, !slot))
  {
    var w, p := v[i := v[i].(state := READY)], v[i].pid;
    KnownAfterUpdate(v, i, READY, parked, asleep, Without1(parked, p, slot), Without1(asleep, p, !slot));
    InitAfterWake(v, i);
    forall j | 0 <= j < |v| - 1 ensures Settled(w[j], Without1(parked, p, slot), Without1(asleep, p, !slot)) {
      assert Settled(v[j], parked, asleep);
      if j == i {
        WokenSettled(v[i], parked, asleep, slot);
      } else {
        OtherSettled(v[j], parked, asleep, p, slot);
      }
    }
    assert v[i].pid != v[|v| - 1].pid;
  }

  /** A process taken out of its slot or of the sleep table becomes READY. */
  lemma WakeProcess(v: seq<Proc>, parked: multiset<int>, asleep: multiset<int>, p: int, slot: bool)
    requires RingOk(v, parked, asleep) && (if slot then p in parked else p in asleep)
    ensures RingOk(ChangeState(v, p, READY), Without1(parked, p, slot), Without1(asleep, p, !slot))
    ensures |ChangeState(v, p, READY)| == |v| && ChangeState(v, p, READY)[|v| - 1] == v[|v| - 1]
  {
    assert HasPid(v, p);
    var i :| 0 <= i < |v| && v[i].pid == p;
    R.IndexOfUnique(v, i);
    assert i < |v| - 1;
    WakeAt(v, i, parked, asleep, slot);
  }

  lemma DemotedIs(v: seq<Proc>)
    requires v != [] && (v[|v| - 1].state == RUNNING || v[|v| - 1].state == READY)
    ensures Demoted(v) == v[|v| - 1 := v[|v| - 1].(state := READY)]
  {
  }

  lemma DemotedSettled(v: seq<Proc>, parked: multiset<int>, asleep: multiset<int>)
    requires RingOk(v, parked, asleep)
    ensures AllSettled(Demoted(v), parked, asleep)
  {
    var n, w := |v|, Demoted(v);
    DemotedIs(v);
    KnownAfterUpdate(v, n - 1, READY, parked, asleep, parked, asleep);
    InitAfterDemotion(v);
    forall i | 0 <= i < n ensures Settled(w[i], parked, asleep) {
      assert i < n - 1 ==> Settled(v[i], parked, asleep);
    }
  }

  lemma InitAfterDemotion(v: seq<Proc>)
    requires R.Distinct(v) && R.InitAlive(v)
    ensures HasReadyInit(Demoted(v))
  {
    var w, j := Demoted(v), IndexOf(v, INIT_PID);
    assert w[j].pid == INIT_PID && w[j].state == READY && R.Distinct(w);
    R.IndexOfUnique(w, j);
  }

  /** schedule on a settled ring: the chosen process is the only RUNNING one. */
  lemma ScheduleSettled(v: seq<Proc>, parked: multiset<int>, asleep: multiset<int>)
    requires AllSettled(v, parked, asleep)
    ensures CanSchedule(v)
    ensures var z := Select(v, FirstReady(v));
            RingOk(z, parked, asleep) && z[|z| - 1].state == RUNNING
  {
    var k := FirstReady(v);
    assert k <= IndexOf(v, INIT_PID);
    var z := Select(v, k);
    R.SelectPids(v, k);
    R.DistinctByPids(v, z, k + 1);
    SelectKnown(v, k, parked, asleep);
    R.SelectInit(v, k);
    SelectSettled(v, k, parked, asleep);
    assert Settled(v[k], parked, asleep);
  }

  lemma SelectSettled(v: seq<Proc>, k: nat, parked: multiset<int>, asleep: multiset<int>)
    requires k < |v| && forall i :: 0 <= i < |v| ==> Settled(v[i], parked, asleep)
    ensures forall i :: 0 <= i < |v| - 1 ==> Settled(Select(v, k)[i], parked, asleep)
  {
    forall i | 0 <= i < |v| - 1 ensures Settled(Select(v, k)[i], parked, asleep) {
      var o := if i + k + 1 < |v| then i + k + 1 else i + k + 1 - |v|;
      assert Select(v, k)[i] == v[o] && Settled(v[o], parked, asleep);
    }
  }

  lemma SelectKnown(v: seq<Proc>, k: nat, parked: multiset<int>, asleep: multiset<int>)
    requires Known(v, parked, asleep) && k < |v| && R.Distinct(Select(v, k))
    ensures Known(Select(v, k), parked, asleep)
  {
    var z := Select(v, k);
    forall p | p in parked || p in asleep ensures HasPid(z, p) {
      assert HasPid(v, p);
      var o :| 0 <= o < |v| && v[o].pid == p;
      R.SelectAt(v, k, o);
      var at := if o < k then |v| - k - 1 + o else if o > k then o - k - 1 else |v| - 1;
      assert z[at].pid == p;
    }
    forall i | 0 <= i < |z| ensures z[i].pid >= 0 {
      var o := if i == |v| - 1 then k else if i + k + 1 < |v| then i + k + 1 else i + k + 1 - |v|;
      assert z[i].pid == v[o].pid;
    }
  }

  // ---------------------------------------------------------------- one step of the kernel

  /** schedule; that a process can always be chosen is proved below. */
  function Dispatch(k: Kernel): Kernel {
    if CanSchedule(Demoted(k.ring)) then k.(ring := Schedule(k.ring), started := true) else k
  }

  /** The timer makes every sleeper whose alarm is reached READY, one after the other. */
  function WakeAll(v: seq<Proc>, woken: seq<int>): seq<Proc>
    decreases |woken|
  {
    if woken == [] then v else WakeAll(ChangeState(v, woken[0], READY), woken[1..])
  }

  function CurrentPid(k: Kernel): int {
    if k.ring == [] then -1 else k.ring[|k.ring| - 1].pid
  }

  /** A system call that left its caller blocked ends in a schedule. */
  function Leave(k: Kernel, st: ProcessState): Kernel {
    Dispatch(k.(ring := ChangeState(k.ring, CurrentPid(k), st)))
  }

  function Wake(k: Kernel, woken: Option<int>): Kernel {
    if woken.Some? then k.(ring := ChangeState(k.ring, woken.value, READY)) else k
  }

  // A caller that finds no slot is excluded by the hypotheses of a run below: there lockMutex
  // blocks whatever process an uninitialised variable names.

  function ExecLock(k: Kernel, i: nat): Kernel
    requires i < |k.mutexes|
  {
    var (m, out) := M.Lock(k.mutexes[i], CurrentPid(k));
    var k' := k.(mutexes := k.mutexes[i := m]);
    if out == M.Acquired then k' else Leave(k', BLOCKED)
  }

  function ExecFree(k: Kernel, i: nat): Kernel
    requires i < |k.mutexes|
  {
    var (m, woken) := M.Free(k.mutexes[i]);
    Wake(k.(mutexes := k.mutexes[i := m]), woken)
  }

  function ExecWait(k: Kernel, i: nat): Kernel
    requires i < |k.sems|
  {
    var (s, out) := S.Wait(k.sems[i], CurrentPid(k));
    var k' := k.(sems := k.sems[i := s]);
    if out == S.Passed then k' else Leave(k', BLOCKED)
  }

  function ExecSignal(k: Kernel, i: nat): Kernel
    requires i < |k.sems|
  {
    var (s, woken) := S.Signal(k.sems[i]);
    Wake(k.(sems := k.sems[i := s]), woken)
  }

  function ExecSleep(k: Kernel, interval: int): Kernel {
    Leave(k.(sleepers := T.Add(k.sleepers, k.sleepSlots, CurrentPid(k), interval)), SLEEPING)
  }

  function ExecTick(k: Kernel): Kernel {
    var (t, woken) := T.Walk(k.sleepers, 0);
    Dispatch(k.(sleepers := t, ring := WakeAll(k.ring, woken)))
  }

  /** One step; a call on an object that does not exist returns at once. */
  function Exec(k: Kernel, step: Step): Kernel {
    match step
    case LockStep(i) => if i < |k.mutexes| then ExecLock(k, i) else k
    case FreeStep(i) => if i < |k.mutexes| then ExecFree(k, i) else k
    case WaitStep(i) => if i < |k.sems| then ExecWait(k, i) else k
    case SignalStep(i) => if i < |k.sems| then ExecSignal(k, i) else k
    case SleepStep(n) => ExecSleep(k, n)
    case TickStep => ExecTick(k)
    case YieldStep => Dispatch(k)
  }

  /** The hypotheses of a run: init never blocks, and a process that has to wait finds
      a slot or an entry. */
  ghost predicate Provided(k: Kernel, step: Step) {
    match step
    case LockStep(i) =>
      i < |k.mutexes| ==> var out := M.Lock(k.mutexes[i], CurrentPid(k)).1;
        out != M.Overflow && (out == M.Queued ==> CurrentPid(k) != INIT_PID)
    case WaitStep(i) =>
      i < |k.sems| ==> var out := S.Wait(k.sems[i], CurrentPid(k)).1;
        out != S.Lost && (out == S.Parked ==> CurrentPid(k) != INIT_PID)
    case SleepStep(_) => |k.sleepers| < k.sleepSlots && CurrentPid(k) != INIT_PID
    case _ => true
  }

  ghost predicate Objects(k: Kernel) {
    && (forall i :: 0 <= i < |k.mutexes| ==> M.Valid(k.mutexes[i]))
    && (forall i :: 0 <= i < |k.sems| ==> S.Valid(k.sems[i]))
  }

  ghost predicate Inv(k: Kernel) {
    && RingOk(k.ring, Parked(k), Sleeping(k.sleepers)) && Objects(k)
    && (k.started ==> k.ring[|k.ring| - 1].state == RUNNING)
  }

  lemma MutexParked(k: Kernel, i: nat, m: M.MutexState, p: int)
    requires i < |k.mutexes|
    ensures var k' := k.(mutexes := k.mutexes[i := m]);
            Parked(k')[p] + Waiters(k.mutexes[i].queue)[p] == Parked(k)[p] + Waiters(m.queue)[p]
    ensures Waiters(k.mutexes[i].queue)[p] <= Parked(k)[p]
  {
    assert MutexQueues(k.mutexes[i := m]) == MutexQueues(k.mutexes)[i := m.queue];
    BagOfUpdate(MutexQueues(k.mutexes), i, m.queue, p);
  }

  lemma SemParked(k: Kernel, i: nat, s: S.SemState, p: int)
    requires i < |k.sems|
    ensures var k' := k.(sems := k.sems[i := s]);
            Parked(k')[p] + Waiters(k.sems[i].queue)[p] == Parked(k)[p] + Waiters(s.queue)[p]
    ensures Waiters(k.sems[i].queue)[p] <= Parked(k)[p]
  {
    assert SemQueues(k.sems[i := s]) == SemQueues(k.sems)[i := s.queue];
    BagOfUpdate(SemQueues(k.sems), i, s.queue, p);
  }

  /** Replacing one queue by one with a waiter more, the same, or a waiter less. */
  lemma MutexBag(k: Kernel, i: nat, m: M.MutexState, more: multiset<int>, fewer: multiset<int>)
    requires i < |k.mutexes| && Waiters(m.queue) + fewer == Waiters(k.mutexes[i].queue) + more
    ensures Parked(k.(mutexes := k.mutexes[i := m])) + fewer == Parked(k) + more
  {
    forall p ensures (Parked(k.(mutexes := k.mutexes[i := m])) + fewer)[p] == (Parked(k) + more)[p] {
      MutexParked(k, i, m, p);
      assert (Waiters(m.queue) + fewer)[p] == (Waiters(k.mutexes[i].queue) + more)[p];
    }
  }

  lemma SemBag(k: Kernel, i: nat, s: S.SemState, more: multiset<int>, fewer: multiset<int>)
    requires i < |k.sems| && Waiters(s.queue) + fewer == Waiters(k.sems[i].queue) + more
    ensures Parked(k.(sems := k.sems[i := s])) + fewer == Parked(k) + more
  {
    forall p ensures (Parked(k.(sems := k.sems[i := s])) + fewer)[p] == (Parked(k) + more)[p] {
      SemParked(k, i, s, p);
      assert (Waiters(s.queue) + fewer)[p] == (Waiters(k.sems[i].queue) + more)[p];
    }
  }

  /** From a settled ring the schedule always finds a process and restores the invariant. */
  lemma DispatchSettled(k: Kernel)
    requires AllSettled(k.ring, Parked(k), Sleeping(k.sleepers)) && Objects(k)
    ensures Inv(Dispatch(k)) && Dispatch(k).started
  {
    assert Settled(k.ring[|k.ring| - 1], Parked(k), Sleeping(k.sleepers));
    assert Demoted(k.ring) == k.ring;
    ScheduleSettled(k.ring, Parked(k), Sleeping(k.sleepers));
  }

  /** The same from a ring whose current process can go on. */
  lemma DispatchOk(k: Kernel)
    requires RingOk(k.ring, Parked(k), Sleeping(k.sleepers)) && Objects(k)
    ensures CanSchedule(Demoted(k.ring)) && Inv(Dispatch(k)) && Dispatch(k).started
  {
    DemotedSettled(k.ring, Parked(k), Sleeping(k.sleepers));
    ScheduleSettled(Demoted(k.ring), Parked(k), Sleeping(k.sleepers));
  }

  /** The current process of k parks while the objects become those of k'. */
  lemma ParkCurrent(k: Kernel, k': Kernel)
    requires Inv(k) && CurrentPid(k) != INIT_PID && Objects(k')
    requires k'.ring == k.ring && k'.sleepers == k.sleepers && Parked(k') == Parked(k) + multiset{CurrentPid(k)}
    ensures Inv(Leave(k', BLOCKED))
  {
    LeaveProcessor(k.ring, Parked(k), Sleeping(k.sleepers), BLOCKED);
    DispatchSettled(k'.(ring := ChangeState(k.ring, CurrentPid(k), BLOCKED)));
  }

  /** Process p leaves its slot while the objects become those of k'. */
  lemma WakeParked(k: Kernel, k': Kernel, p: int)
    requires Inv(k) && p in Parked(k) && Objects(k') && k'.started == k.started
    requires k'.ring == k.ring && k'.sleepers == k.sleepers && Parked(k') == Parked(k) - multiset{p}
    ensures Inv(Wake(k', Some(p)))
  {
    WakeProcess(k.ring, Parked(k), Sleeping(k.sleepers), p, true);
  }

  lemma SameParked(k: Kernel, k': Kernel)
    requires Inv(k) && Objects(k') && k'.started == k.started
    requires k'.ring == k.ring && k'.sleepers == k.sleepers && Parked(k') == Parked(k)
    ensures Inv(k')
  {
  }

  lemma PlusMinus(before: multiset<int>, after: multiset<int>, p: int)
    requires after + multiset{p} == before + multiset{}
    ensures p in before && after == before - multiset{p}
  {
    assert before + multiset{} == before;
    assert (after + multiset{p})[p] > 0;
  }

  lemma PlusNothing(before: multiset<int>, after: multiset<int>, more: multiset<int>)
    requires after + multiset{} == before + more
    ensures after == before + more && (more == multiset{} ==> after == before)
  {
    assert after + multiset{} == after && before + multiset{} == before;
  }

  lemma MutexObjects(k: Kernel, i: nat, m: M.MutexState)
    requires Objects(k) && i < |k.mutexes| && M.Valid(m)
    ensures Objects(k.(mutexes := k.mutexes[i := m]))
  {
  }

  lemma SemObjects(k: Kernel, i: nat, s: S.SemState)
    requires Objects(k) && i < |k.sems| && S.Valid(s)
    ensures Objects(k.(sems := k.sems[i := s]))
  {
  }

  /** The objects and the waiters after a lock call. */
  lemma LockObjects(k: Kernel, i: nat, cur: int)
    requires Objects(k) && i < |k.mutexes| && cur != NO_PID && M.Lock(k.mutexes[i], cur).1 != M.Overflow
    ensures var (m, out) := M.Lock(k.mutexes[i], cur);
            var k' := k.(mutexes := k.mutexes[i := m]);
            Objects(k') && Parked(k') == if out == M.Queued then Parked(k) + multiset{cur} else Parked(k)
  {
    var (m, out) := M.Lock(k.mutexes[i], cur);
    M.LockEffect(k.mutexes[i], cur);
    MutexObjects(k, i, m);
    var more := if out == M.Queued then multiset{cur} else multiset{};
    MutexBag(k, i, m, more, multiset{});
    PlusNothing(Parked(k), Parked(k.(mutexes := k.mutexes[i := m])), more);
  }

  /** The objects and the waiters after a free call. */
  lemma FreeObjects(k: Kernel, i: nat)
    requires Objects(k) && i < |k.mutexes|
    ensures var (m, woken) := M.Free(k.mutexes[i]);
            var k' := k.(mutexes := k.mutexes[i := m]);
            && Objects(k')
            && if woken.Some? then woken.value in Parked(k) && Parked(k') == Parked(k) - multiset{woken.value}
               else Parked(k') == Parked(k)
  {
    var (m, woken) := M.Free(k.mutexes[i]);
    var after := Parked(k.(mutexes := k.mutexes[i := m]));
    if k.mutexes[i].word == 0 {
      assert k.mutexes[i := m] == k.mutexes;
    } else {
      M.FreeEffect(k.mutexes[i]);
      MutexObjects(k, i, m);
      MutexBag(k, i, m, multiset{}, if woken.Some? then multiset{woken.value} else multiset{});
      if woken.Some? {
        PlusMinus(Parked(k), after, woken.value);
      } else {
        PlusNothing(Parked(k), after, multiset{});
      }
    }
  }

  lemma WaitObjects(k: Kernel, i: nat, cur: int)
    requires Objects(k) && i < |k.sems| && cur != NO_PID && S.Wait(k.sems[i], cur).1 != S.Lost
    ensures var (s, out) := S.Wait(k.sems[i], cur);
            var k' := k.(sems := k.sems[i := s]);
            Objects(k') && Parked(k') == if out == S.Parked then Parked(k) + multiset{cur} else Parked(k)
  {
    var (s, out) := S.Wait(k.sems[i], cur);
    S.WaitEffect(k.sems[i], cur);
    SemObjects(k, i, s);
    var more := if out == S.Parked then multiset{cur} else multiset{};
    SemBag(k, i, s, more, multiset{});
    PlusNothing(Parked(k), Parked(k.(sems := k.sems[i := s])), more);
  }

  lemma SignalObjects(k: Kernel, i: nat)
    requires Objects(k) && i < |k.sems|
    ensures var (s, woken) := S.Signal(k.sems[i]);
            var k' := k.(sems := k.sems[i := s]);
            && Objects(k')
            && if woken.Some? then woken.value in Parked(k) && Parked(k') == Parked(k) - multiset{woken.value}
               else Parked(k') == Parked(k)
  {
    var (s, woken) := S.Signal(k.sems[i]);
    var after := Parked(k.(sems := k.sems[i := s]));
    S.SignalEffect(k.sems[i]);
    SemObjects(k, i, s);
    SemBag(k, i, s, multiset{}, if woken.Some? then multiset{woken.value} else multiset{});
    if woken.Some? {
      PlusMinus(Parked(k), after, woken.value);
    } else {
      PlusNothing(Parked(k), after, multiset{});
    }
  }

  lemma LockKeepsInv(k: Kernel, i: nat)
    requires Inv(k) && i < |k.mutexes| && CurrentPid(k) >= 0
    requires var out := M.Lock(k.mutexes[i], CurrentPid(k)).1;
             out != M.Overflow && (out == M.Queued ==> CurrentPid(k) != INIT_PID)
    ensures Inv(ExecLock(k, i))
  {
    LockObjects(k, i, CurrentPid(k));
    var (m, out) := M.Lock(k.mutexes[i], CurrentPid(k));
    if out == M.Queued {
      ParkCurrent(k, k.(mutexes := k.mutexes[i := m]));
    } else {
      SameParked(k, k.(mutexes := k.mutexes[i := m]));
    }
  }

  lemma FreeKeepsInv(k: Kernel, i: nat)
    requires Inv(k) && i < |k.mutexes|
    ensures Inv(ExecFree(k, i))
  {
    var (m, woken) := M.Free(k.mutexes[i]);
    var k' := k.(mutexes := k.mutexes[i := m]);
    FreeObjects(k, i);
    if woken.Some? {
      WakeParked(k, k', woken.value);
    } else {
      SameParked(k, k');
    }
  }

  lemma WaitKeepsInv(k: Kernel, i: nat)
    requires Inv(k) && i < |k.sems| && CurrentPid(k) >= 0
    requires var out := S.Wait(k.sems[i], CurrentPid(k)).1;
             out != S.Lost && (out == S.Parked ==> CurrentPid(k) != INIT_PID)
    ensures Inv(ExecWait(k, i))
  {
    WaitObjects(k, i, CurrentPid(k));
    var (s, out) := S.Wait(k.sems[i], CurrentPid(k));
    if out == S.Parked {
      ParkCurrent(k, k.(sems := k.sems[i := s]));
    } else {
      SameParked(k, k.(sems := k.sems[i := s]));
    }
  }

  lemma SignalKeepsInv(k: Kernel, i: nat)
    requires Inv(k) && i < |k.sems|
    ensures Inv(ExecSignal(k, i))
  {
    var (s, woken) := S.Signal(k.sems[i]);
    var k' := k.(sems := k.sems[i := s]);
    SignalObjects(k, i);
    if woken.Some? {
      WakeParked(k, k', woken.value);
    } else {
      SameParked(k, k');
    }
  }

  lemma AddSleeps(t: seq<T.Sleeper>, slots: nat, p: int, n: int)
    requires |t| < slots
    ensures Sleeping(T.Add(t, slots, p, n)) == Sleeping(t) + multiset{p}
  {
    assert PidSeq(T.Add(t, slots, p, n)) == PidSeq(t) + [p];
  }

  lemma SleepKeepsInv(k: Kernel, n: int)
    requires Inv(k) && |k.sleepers| < k.sleepSlots && CurrentPid(k) != INIT_PID
    ensures Inv(ExecSleep(k, n))
  {
    var cur := CurrentPid(k);
    var k' := k.(sleepers := T.Add(k.sleepers, k.sleepSlots, cur, n), ring := ChangeState(k.ring, cur, SLEEPING));
    AddSleeps(k.sleepers, k.sleepSlots, cur, n);
    LeaveProcessor(k.ring, Parked(k), Sleeping(k.sleepers), SLEEPING);
    assert Parked(k') == Parked(k) && Objects(k');
    DispatchSettled(k');
  }

  // ---------------------------------------------------------------- ticks

  lemma DeletePids(t: seq<T.Sleeper>, j: nat)
    requires j < |t|
    ensures Sleeping(T.Delete(t, j)) + multiset{t[j].pid} == Sleeping(t)
  {
    var s, n := PidSeq(t), |t| - 1;
    var moved := s[j := s[n]];
    assert PidSeq(T.Delete(t, j)) == moved[..n];
    assert moved[..n] + [s[n]] == moved;
    assert multiset(moved) == multiset(s) - multiset{s[j]} + multiset{s[n]};
    assert multiset(moved[..n]) + multiset{s[n]} == multiset(moved);
  }

  /** A tick moves pids from the sleep table to the list of woken processes. */
  lemma {:induction false} WalkMovesPids(t: seq<T.Sleeper>, j: nat)
    ensures Sleeping(T.Walk(t, j).0) + multiset(T.Walk(t, j).1) == Sleeping(t)
    decreases |t| - j
  {
    if j < |t| {
      var u := t[j := T.Aged(t[j])];
      assert PidSeq(u) == PidSeq(t);
      if T.Due(t[j]) {
        var d := T.Delete(u, j);
        WalkMovesPids(d, j);
        DeletePids(u, j);
        assert multiset([t[j].pid] + T.Walk(d, j).1) == multiset{t[j].pid} + multiset(T.Walk(d, j).1);
      } else {
        WalkMovesPids(u, j + 1);
      }
    }
  }

  lemma {:induction false} WakeAllKeepsRing(v: seq<Proc>, parked: multiset<int>, asleep: multiset<int>, woken: seq<int>)
    requires RingOk(v, parked, asleep + multiset(woken))
    ensures RingOk(WakeAll(v, woken), parked, asleep)
    decreases |woken|
  {
    if woken != [] {
      var p, rest := woken[0], woken[1..];
      assert woken == [p] + rest;
      assert multiset(woken) == multiset{p} + multiset(rest);
      WakeProcess(v, parked, asleep + multiset(woken), p, false);
      assert asleep + multiset(woken) - multiset{p} == asleep + multiset(rest);
      WakeAllKeepsRing(ChangeState(v, p, READY), parked, asleep, rest);
    } else {
      assert asleep + multiset(woken) == asleep;
    }
  }

  lemma TickKeepsInv(k: Kernel)
    requires Inv(k)
    ensures Inv(ExecTick(k))
  {
    var (t, woken) := T.Walk(k.sleepers, 0);
    WalkMovesPids(k.sleepers, 0);
    WakeAllKeepsRing(k.ring, Parked(k), Sleeping(t), woken);
    DispatchOk(k.(sleepers := t, ring := WakeAll(k.ring, woken)));
  }

  lemma StepKeepsInv(k: Kernel, step: Step)
    requires Inv(k) && Provided(k, step)
    ensures Inv(Exec(k, step))
  {
    match step {
      case LockStep(i) => if i < |k.mutexes| { LockKeepsInv(k, i); }
      case FreeStep(i) => if i < |k.mutexes| { FreeKeepsInv(k, i); }
      case WaitStep(i) => if i < |k.sems| { WaitKeepsInv(k, i); }
      case SignalStep(i) => if i < |k.sems| { SignalKeepsInv(k, i); }
      case SleepStep(n) => SleepKeepsInv(k, n);
      case TickStep => TickKeepsInv(k);
      case YieldStep => DispatchOk(k);
    }
  }

  // ---------------------------------------------------------------- what the hypotheses are needed for

  /** A process that leaves the processor keeps its new state, wherever the ring turns. */
  lemma LeaverStays(k: Kernel, st: ProcessState) returns (at: nat)
    requires k.ring != [] && R.Distinct(k.ring) && (st == BLOCKED || st == SLEEPING)
    ensures var z := Leave(k, st);
            at < |z.ring| && z.ring[at] == Proc(CurrentPid(k), st)
  {
    var n := |k.ring|;
    R.IndexOfUnique(k.ring, n - 1);
    var w := ChangeState(k.ring, CurrentPid(k), st);
    assert w == k.ring[n - 1 := Proc(CurrentPid(k), st)] && Demoted(w) == w;
    if CanSchedule(w) {
      R.SelectAt(w, FirstReady(w), n - 1);
      at := n - FirstReady(w) - 2;
    } else {
      at := n - 1;
    }
  }

  /** Nothing wakes init, and nothing wakes a process that is in no slot and in no entry. */
  lemma StrandedBreaksRing(v: seq<Proc>, at: nat, parked: multiset<int>, asleep: multiset<int>)
    requires at < |v| && (v[at].state == BLOCKED || v[at].state == SLEEPING)
    requires v[at].pid == INIT_PID || (if v[at].state == BLOCKED then parked else asleep)[v[at].pid] == 0
    ensures !RingOk(v, parked, asleep)
  {
    if R.Distinct(v) {
      R.IndexOfUnique(v, at);
    }
  }

  /** A sleeper without an entry, or init asleep. */
  lemma NoEntryBreaksInv(k: Kernel)
    requires k.ring != [] && R.Distinct(k.ring)
    requires CurrentPid(k) == INIT_PID || Sleeping(k.sleepers)[CurrentPid(k)] == 0
    ensures !Inv(Leave(k, SLEEPING))
  {
    var at := LeaverStays(k, SLEEPING);
    var z := Leave(k, SLEEPING);
    assert z.sleepers == k.sleepers;
    StrandedBreaksRing(z.ring, at, Parked(z), Sleeping(z.sleepers));
  }

  lemma BlockedInitBreaksInv(k: Kernel)
    requires k.ring != [] && R.Distinct(k.ring) && CurrentPid(k) == INIT_PID
    ensures !Inv(Leave(k, BLOCKED))
  {
    var at := LeaverStays(k, BLOCKED);
    var z := Leave(k, BLOCKED);
    StrandedBreaksRing(z.ring, at, Parked(z), Sleeping(z.sleepers));
  }

  lemma LockKeepsInvIff(k: Kernel, i: nat)
    requires Inv(k) && i < |k.mutexes| && M.Lock(k.mutexes[i], CurrentPid(k)).1 != M.Overflow
    ensures Inv(ExecLock(k, i)) <==> Provided(k, LockStep(i))
  {
    if Provided(k, LockStep(i)) {
      LockKeepsInv(k, i);
    } else {
      BlockedInitBreaksInv(k.(mutexes := k.mutexes[i := M.Lock(k.mutexes[i], CurrentPid(k)).0]));
    }
  }

  /** wait keeps the invariant exactly when the caller passes, or finds a slot and is not init. */
  lemma WaitKeepsInvIff(k: Kernel, i: nat)
    requires Inv(k) && i < |k.sems|
    ensures Inv(ExecWait(k, i)) <==> Provided(k, WaitStep(i))
  {
    var (s, out) := S.Wait(k.sems[i], CurrentPid(k));
    var k' := k.(sems := k.sems[i := s]);
    if Provided(k, WaitStep(i)) {
      WaitKeepsInv(k, i);
    } else if out == S.Lost {
      S.WaitEffect(k.sems[i], CurrentPid(k));
      BadSemaphoreBreaksInv(k', i);
    } else {
      BlockedInitBreaksInv(k');
    }
  }

  lemma BadSemaphoreBreaksInv(k: Kernel, i: nat)
    requires i < |k.sems| && !S.Valid(k.sems[i])
    ensures !Inv(Leave(k, BLOCKED))
  {
    assert Leave(k, BLOCKED).sems == k.sems;
  }

  /** sleep keeps the invariant exactly when the table has a free entry and the caller is not init. */
  lemma SleepKeepsInvIff(k: Kernel, n: int)
    requires Inv(k)
    ensures Inv(ExecSleep(k, n)) <==> Provided(k, SleepStep(n))
  {
    if Provided(k, SleepStep(n)) {
      SleepKeepsInv(k, n);
    } else {
      var t := T.Add(k.sleepers, k.sleepSlots, CurrentPid(k), n);
      assert CurrentPid(k) != INIT_PID ==> t == k.sleepers;
      NoEntryBreaksInv(k.(sleepers := t));
    }
  }

  /** The hypotheses of a run are exactly what its steps need to keep the invariant; only a
      lock that meets full slots is outside the model. */
  lemma StepKeepsInvIff(k: Kernel, step: Step)
    requires Inv(k)
    requires step.LockStep? && step.m < |k.mutexes| ==> M.Lock(k.mutexes[step.m], CurrentPid(k)).1 != M.Overflow
    ensures Inv(Exec(k, step)) <==> Provided(k, step)
  {
    match step {
      case LockStep(i) => if i < |k.mutexes| { LockKeepsInvIff(k, i); }
      case WaitStep(i) => if i < |k.sems| { WaitKeepsInvIff(k, i); }
      case SleepStep(n) => SleepKeepsInvIff(k, n);
      case _ => StepKeepsInv(k, step);
    }
  }

  // ---------------------------------------------------------------- runs

  ghost predicate AllProvided(k: Kernel, steps: seq<Step>)
    decreases |steps|
  {
    steps == [] || (Provided(k, steps[0]) && AllProvided(Exec(k, steps[0]), steps[1..]))
  }

  ghost function Run(k: Kernel, steps: seq<Step>): Kernel
    decreases |steps|
  {
    if steps == [] then k else Run(Exec(k, steps[0]), steps[1..])
  }

  lemma {:induction false} RunKeepsInv(k: Kernel, steps: seq<Step>)
    requires Inv(k) && AllProvided(k, steps)
    ensures Inv(Run(k, steps))
    decreases |steps|
  {
    if steps != [] {
      StepKeepsInv(k, steps[0]);
      RunKeepsInv(Exec(k, steps[0]), steps[1..]);
    }
  }

  /** The state of the kernel when the scheduler is about to start: init is current
      and READY, the other processes are READY, nobody waits or sleeps. */
  ghost predicate Boot(k: Kernel) {
    && k.ring != [] && R.Distinct(k.ring) && k.ring[|k.ring| - 1].pid == INIT_PID && !k.started
    && (forall i :: 0 <= i < |k.ring| ==> k.ring[i].pid >= 0 && k.ring[i].state == READY)
    && Objects(k) && Parked(k) == multiset{} && k.sleepers == []
  }

  lemma BootKeepsInv(k: Kernel)
    requires Boot(k)
    ensures Inv(k)
  {
    R.IndexOfUnique(k.ring, |k.ring| - 1);
  }

  /** Each process other than the current one is READY and waits nowhere, or BLOCKED with
      its pid in exactly one slot of exactly one queue, or SLEEPING with exactly one entry;
      once the scheduler has run, the current process is the only RUNNING one; and the next
      schedule always ends. */
  ghost predicate Accounted(z: Kernel) {
    && z.ring != []
    && (forall i :: 0 <= i < |z.ring| - 1 ==> Settled(z.ring[i], Parked(z), Sleeping(z.sleepers)))
    && Current(z.ring[|z.ring| - 1], Parked(z), Sleeping(z.sleepers))
    && (z.started ==> z.ring[|z.ring| - 1].state == RUNNING)
    && CanSchedule(Demoted(z.ring))
  }

  lemma AlwaysSchedulable(v: seq<Proc>, parked: multiset<int>, asleep: multiset<int>)
    requires RingOk(v, parked, asleep)
    ensures CanSchedule(Demoted(v))
  {
    DemotedSettled(v, parked, asleep);
    ScheduleSettled(Demoted(v), parked, asleep);
  }

  lemma InvAccounts(z: Kernel)
    requires Inv(z)
    ensures Accounted(z)
  {
    AlwaysSchedulable(z.ring, Parked(z), Sleeping(z.sleepers));
  }

  /** Every state of every run accounts for every process. */
  lemma EveryProcessIsAccountedFor(k: Kernel, steps: seq<Step>)
    requires Boot(k) && AllProvided(k, steps)
    ensures Accounted(Run(k, steps))
  {
    BootKeepsInv(k);
    RunKeepsInv(k, steps);
    InvAccounts(Run(k, steps));
  }
}
