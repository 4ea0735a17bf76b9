/** What the scheduler promises over whole runs: it always finds a process to run,
    it serves the ring in order, and no READY process waits longer than one round. */
module SchedulerRounds {
  import opened Scheduler

  /** The walk of schedule ends exactly when some process is READY, or the current
      one is RUNNING and so becomes READY. */
  lemma ScheduleEndsIff(v: seq<Proc>)
    ensures CanSchedule(Demoted(v)) <==>
            (exists i :: 0 <= i < |v| && v[i].state == READY) || (v != [] && v[|v| - 1].state == RUNNING)
  {
    var w := Demoted(v);
    if v != [] && v[|v| - 1].state == RUNNING {
      assert w[|v| - 1].state == READY;
    } else {
      assert w == v;
    }
  }

  ghost function Pids(v: seq<Proc>): (p: seq<int>)
    ensures |p| == |v| && forall i :: 0 <= i < |v| ==> p[i] == v[i].pid
  {
    seq(|v|, i requires 0 <= i < |v| => v[i].pid)
  }

  /** schedule turns the ring without reordering it, up to the first READY process
      after the current one, which becomes the RUNNING one. */
  lemma ScheduleTakesFirstReady(v: seq<Proc>)
    requires CanSchedule(Demoted(v))
    ensures var k, z, n := FirstReady(Demoted(v)), Schedule(v), |v|;
            && k < n && |z| == n && Pids(z) == Pids(v)[k + 1..] + Pids(v)[..k + 1]
            && z[n - 1] == Proc(v[k].pid, RUNNING)
            && (v[k].state == READY || (k == n - 1 && v[k].state == RUNNING))
            && (forall i :: 0 <= i < k ==> v[i].state != READY)
  {
    SelectPids(Demoted(v), FirstReady(Demoted(v)));
    assert Pids(Demoted(v)) == Pids(v);
  }

  lemma SelectPids(v: seq<Proc>, k: nat)
    requires k < |v|
    ensures |Select(v, k)| == |v| && Pids(Select(v, k)) == Pids(v)[k + 1..] + Pids(v)[..k + 1]
  {
  }

  /** Of the processes that are not chosen only the old current one may change, from
      RUNNING to READY. */
  lemma ScheduleSparesTheRest(v: seq<Proc>, o: nat)
    requires CanSchedule(Demoted(v)) && o < |v| && o != FirstReady(Demoted(v))
    ensures var k, z, n := FirstReady(Demoted(v)), Schedule(v), |v|;
            z[if o > k then o - k - 1 else n - k - 1 + o]
            == if o == n - 1 && v[o].state == RUNNING then Proc(v[o].pid, READY) else v[o]
  {
  }

  /** Ring z arises from w when the first READY process of w gets the processor: it is at place
      c, the ring turns behind it, and nobody else changes. */
  ghost predicate HandsOver(w: seq<Proc>, z: seq<Proc>, c: nat) {
    && c < |w| == |z| && w[c].state == READY && (forall i :: 0 <= i < c ==> w[i].state != READY)
    && z[|w| - 1] == Proc(w[c].pid, RUNNING)
    && (forall i :: c < i < |w| ==> z[i - c - 1] == w[i])
    && (forall i :: 0 <= i < c ==> z[|w| - c - 1 + i] == w[i])
  }

  lemma SelectHandsOver(w: seq<Proc>)
    requires CanSchedule(w)
    ensures HandsOver(w, Select(w, FirstReady(w)), FirstReady(w))
  {
  }

  /** changeProcessState touches the process with that pid and nobody else. */
  lemma ChangeStateEffect(v: seq<Proc>, pid: int, st: ProcessState)
    requires Distinct(v)
    ensures var w := ChangeState(v, pid, st);
            |w| == |v| && forall i :: 0 <= i < |v| ==> w[i] == if v[i].pid == pid then Proc(pid, st) else v[i]
  {
    var j := IndexOf(v, pid);
    forall i | 0 <= i < |v| && i != j && j < |v| ensures v[i].pid != pid {
      assert i < j ==> v[i].pid != v[j].pid;
      assert j < i ==> v[j].pid != v[i].pid;
    }
  }

  /** What removeProcess leaves, case by case: init stays and the scheduler runs; an unknown pid
      changes nothing; another process is taken out of the ring and the rest keeps its order and
      states; the last process leaves an empty ring; and when the current process goes, the
      first READY one of the rest gets the processor. */
  lemma RemoveEffect(v: seq<Proc>, pid: int, i: nat) returns (c: nat)
    requires Yields(v, pid) ==> CanSchedule(BeforeYield(v, pid))
    requires i <= |v| && (forall k :: 0 <= k < i ==> v[k].pid != pid) && (i < |v| ==> v[i].pid == pid)
    ensures pid == INIT_PID && v != [] && v[|v| - 1].state == RUNNING ==>
              HandsOver(v[..|v| - 1] + [Proc(v[|v| - 1].pid, READY)], Remove(v, pid), c)
    ensures pid == INIT_PID && v != [] && v[|v| - 1].state != RUNNING ==> HandsOver(v, Remove(v, pid), c)
    ensures v == [] || (i == |v| && pid != INIT_PID) ==> Remove(v, pid) == v
    ensures i < |v| - 1 && pid != INIT_PID ==> Remove(v, pid) == v[..i] + v[i + 1..]
    ensures i == |v| - 1 == 0 && pid != INIT_PID ==> Remove(v, pid) == []
    ensures i == |v| - 1 > 0 && pid != INIT_PID ==> HandsOver(v[..|v| - 1], Remove(v, pid), c)
  {
    c := 0;
    if Yields(v, pid) {
      c := FirstReady(BeforeYield(v, pid));
      SelectHandsOver(BeforeYield(v, pid));
      if pid == INIT_PID && v[|v| - 1].state == RUNNING {
        assert Demoted(v) == v[..|v| - 1] + [Proc(v[|v| - 1].pid, READY)];
      }
    }
  }

  // ---------------------------------------------------------------- one round is enough

  /** Between two calls of schedule the states may change in any way, the ring not. */
  ghost predicate UnchangedRing(rings: seq<seq<Proc>>) {
    && (forall t :: 0 <= t < |rings| ==> CanSchedule(Demoted(rings[t])))
    && (forall t :: 0 <= t < |rings| - 1 ==> StepAt(rings, t))
  }

  ghost predicate StepAt(rings: seq<seq<Proc>>, t: nat)
    requires t + 1 < |rings| && CanSchedule(Demoted(rings[t]))
  {
    Pids(rings[t + 1]) == Pids(Schedule(rings[t]))
  }

  /** Call t of schedule gives the processor to pid. */
  ghost predicate RunsAt(rings: seq<seq<Proc>>, t: nat, pid: int)
    requires t < |rings| && CanSchedule(Demoted(rings[t]))
  {
    var z := Schedule(rings[t]);
    z != [] && z[|z| - 1].pid == pid
  }

  ghost predicate NotYetRun(rings: seq<seq<Proc>>, t: nat, pid: int)
    requires UnchangedRing(rings) && t <= |rings|
  {
    forall u :: 0 <= u < t ==> !RunsAt(rings, u, pid)
  }

  /** pid is READY at every call until it runs. */
  ghost predicate ReadyUntilRun(rings: seq<seq<Proc>>, pid: int)
    requires UnchangedRing(rings)
  {
    forall t :: 0 <= t < |rings| && NotYetRun(rings, t, pid) ==> Proc(pid, READY) in rings[t]
  }

  ghost predicate Distinct(v: seq<Proc>) {
    forall i, j :: 0 <= i < j < |v| ==> v[i].pid != v[j].pid
  }

  lemma DistinctByPids(v: seq<Proc>, z: seq<Proc>, k: nat)
    requires Distinct(v) && k <= |v| && Pids(z) == Pids(v)[k..] + Pids(v)[..k]
    ensures Distinct(z)
  {
    forall i, j | 0 <= i < j < |z| ensures z[i].pid != z[j].pid {
      var a := if i + k < |v| then i + k else i + k - |v|;
      var b := if j + k < |v| then j + k else j + k - |v|;
      assert Pids(z)[i] == Pids(v)[a] && Pids(z)[j] == Pids(v)[b];
      assert v[a].pid != v[b].pid by {
        if a < b { assert v[a].pid != v[b].pid; } else { assert v[b].pid != v[a].pid; }
      }
    }
  }

  /** The distance to a process shrinks by at least one with every call that does
      not choose it. */
  lemma DistanceShrinks(v: seq<Proc>, next: seq<Proc>, d: nat)
    requires Distinct(v) && d < |v| && v[d].state == READY && CanSchedule(Demoted(v))
    requires Pids(next) == Pids(Schedule(v))
    ensures Distinct(next)
    ensures Schedule(v)[|v| - 1].pid != v[d].pid ==> exists e :: 0 <= e < d && e < |next| && next[e].pid == v[d].pid
  {
    ScheduleTakesFirstReady(v);
    var k := FirstReady(Demoted(v));
    DistinctByPids(v, next, k + 1);
    assert Demoted(v)[d].state == READY && k <= d;
    if k < d {
      assert Pids(next)[d - k - 1] == Pids(v)[d];
      assert next[d - k - 1].pid == v[d].pid;
    }
  }

  /** After a call that does not choose it, the process is closer and the rest of
      the run is again a run. */
  lemma OneCallCloser(rings: seq<seq<Proc>>, d: nat) returns (e: nat)
    requires |rings| > d && UnchangedRing(rings) && Distinct(rings[0]) && d < |rings[0]|
    requires ReadyUntilRun(rings, rings[0][d].pid) && !RunsAt(rings, 0, rings[0][d].pid)
    ensures |rings| > 1 && e < d && e < |rings[1]| && rings[1][e].pid == rings[0][d].pid && Distinct(rings[1])
  {
    var v := rings[0];
    ReadyAt(v, d);
    ScheduleTakesFirstReady(v);
    assert d > 0;
    assert StepAt(rings, 0);
    DistanceShrinks(v, rings[1], d);
    e :| 0 <= e < d && e < |rings[1]| && rings[1][e].pid == v[d].pid;
  }

  /** A process d places after the current one that stays READY runs within d + 1 calls. */
  lemma {:induction false} RunsWithinOneRound(rings: seq<seq<Proc>>, d: nat) returns (t: nat)
    requires |rings| > d && UnchangedRing(rings) && Distinct(rings[0]) && d < |rings[0]|
    requires ReadyUntilRun(rings, rings[0][d].pid)
    ensures t <= d && RunsAt(rings, t, rings[0][d].pid)
    decreases d
  {
    var pid := rings[0][d].pid;
    if RunsAt(rings, 0, pid) {
      t := 0;
    } else {
      var e := OneCallCloser(rings, d);
      RestOfRun(rings, pid);
      var u := RunsWithinOneRound(rings[1..], e);
      t := u + 1;
      SameCall(rings, u, pid);
    }
  }

  lemma SameCall(rings: seq<seq<Proc>>, u: nat, pid: int)
    requires u + 1 < |rings| && CanSchedule(Demoted(rings[u + 1]))
    ensures RunsAt(rings[1..], u, pid) == RunsAt(rings, u + 1, pid)
  {
  }

  lemma ReadyAt(v: seq<Proc>, d: nat)
    requires Distinct(v) && d < |v| && Proc(v[d].pid, READY) in v
    ensures v[d].state == READY
  {
    var i :| 0 <= i < |v| && v[i] == Proc(v[d].pid, READY);
    assert i == d;
  }

  lemma RestOfRun(rings: seq<seq<Proc>>, pid: int)
    requires |rings| > 1 && UnchangedRing(rings) && ReadyUntilRun(rings, pid) && !RunsAt(rings, 0, pid)
    ensures UnchangedRing(rings[1..]) && ReadyUntilRun(rings[1..], pid)
  {
    RestIsRing(rings);
    var rest := rings[1..];
    forall t | 0 <= t < |rest| && NotYetRun(rest, t, pid) ensures Proc(pid, READY) in rest[t] {
      NotYetInRest(rings, t, pid);
      assert rest[t] == rings[t + 1];
    }
  }

  lemma NotYetInRest(rings: seq<seq<Proc>>, t: nat, pid: int)
    requires t + 1 < |rings| && UnchangedRing(rings) && UnchangedRing(rings[1..])
    requires !RunsAt(rings, 0, pid) && NotYetRun(rings[1..], t, pid)
    ensures NotYetRun(rings, t + 1, pid)
  {
    forall u | 0 < u < t + 1 ensures !RunsAt(rings, u, pid) {
      assert !RunsAt(rings[1..], u - 1, pid);
      SameCall(rings, u - 1, pid);
    }
  }

  lemma RestIsRing(rings: seq<seq<Proc>>)
    requires |rings| > 1 && UnchangedRing(rings)
    ensures UnchangedRing(rings[1..])
  {
    var rest := rings[1..];
    forall t | 0 <= t < |rest| - 1 ensures StepAt(rest, t) {
      assert StepAt(rings, t + 1);
    }
  }

  // ---------------------------------------------------------------- runs of the whole interface

  datatype Sys = Sys(ring: seq<Proc>, nextPid: nat)

  datatype Op =
    | CreateOp
    | RemoveOp(pid: int)
    | ScheduleOp
    | StateOp(pid: int, st: ProcessState)

  /** Only the scheduler makes a process RUNNING, and init, which only loops, is
      never put in another state. */
  predicate Proper(op: Op) {
    op.StateOp? ==> op.st != RUNNING && op.pid != INIT_PID
  }

  ghost predicate Terminates(s: Sys, op: Op) {
    match op
    case ScheduleOp => CanSchedule(Demoted(s.ring))
    case RemoveOp(p) => Yields(s.ring, p) ==> CanSchedule(BeforeYield(s.ring, p))
    case _ => true
  }

  function Perform(s: Sys, op: Op): Sys
    requires Terminates(s, op)
  {
    match op
    case CreateOp => Sys([Proc(s.nextPid, READY)] + s.ring, s.nextPid + 1)
    case RemoveOp(p) => s.(ring := Remove(s.ring, p))
    case ScheduleOp => s.(ring := Schedule(s.ring))
    case StateOp(p, st) => s.(ring := ChangeState(s.ring, p, st))
  }

  /** No process but the current one is RUNNING. */
  ghost predicate OnlyCurrentRuns(v: seq<Proc>) {
    forall i :: 0 <= i < |v| - 1 ==> v[i].state != RUNNING
  }

  /** init is in the ring and can always be chosen. */
  ghost predicate InitAlive(v: seq<Proc>) {
    var j := IndexOf(v, INIT_PID);
    j < |v| && (v[j].state == READY || (j == |v| - 1 && v[j].state == RUNNING))
  }

  ghost predicate Inv(s: Sys) {
    && Distinct(s.ring) && (forall i :: 0 <= i < |s.ring| ==> 0 <= s.ring[i].pid < s.nextPid)
    && OnlyCurrentRuns(s.ring) && InitAlive(s.ring)
  }

  lemma IndexOfUnique(v: seq<Proc>, j: nat)
    requires Distinct(v) && j < |v|
    ensures IndexOf(v, v[j].pid) == j
  {
  }

  /** What choosing process k does to the invariant. */
  lemma SelectKeepsInv(v: seq<Proc>, k: nat, bound: nat)
    requires Distinct(v) && (forall i :: 0 <= i < |v| ==> 0 <= v[i].pid < bound) && k < |v|
    requires forall i :: 0 <= i < |v| ==> v[i].state != RUNNING
    requires IndexOf(v, INIT_PID) < |v| && v[IndexOf(v, INIT_PID)].state == READY
    ensures Inv(Sys(Select(v, k), bound))
  {
    SelectPids(v, k);
    DistinctByPids(v, Select(v, k), k + 1);
    SelectBounds(v, k, bound);
    SelectInit(v, k);
  }

  lemma SelectBounds(v: seq<Proc>, k: nat, bound: nat)
    requires (forall i :: 0 <= i < |v| ==> 0 <= v[i].pid < bound && v[i].state != RUNNING) && k < |v|
    ensures OnlyCurrentRuns(Select(v, k))
    ensures forall i :: 0 <= i < |v| ==> 0 <= Select(v, k)[i].pid < bound
  {
  }

  lemma SelectInit(v: seq<Proc>, k: nat)
    requires k < |v| && Distinct(Select(v, k))
    requires IndexOf(v, INIT_PID) < |v| && v[IndexOf(v, INIT_PID)].state == READY
    ensures InitAlive(Select(v, k))
  {
    var z, j := Select(v, k), IndexOf(v, INIT_PID);
    var at := if j > k then j - k - 1 else |v| - k - 1 + j;
    SelectAt(v, k, j);
    IndexOfUnique(z, if j == k then |v| - 1 else at);
  }

  /** Where process o goes. */
  lemma SelectAt(v: seq<Proc>, k: nat, o: nat)
    requires k < |v| && o < |v|
    ensures o < k ==> Select(v, k)[|v| - k - 1 + o] == v[o]
    ensures o > k ==> Select(v, k)[o - k - 1] == v[o]
    ensures o == k ==> Select(v, k)[|v| - 1] == Proc(v[o].pid, RUNNING)
  {
  }

  lemma ScheduleKeepsInv(s: Sys)
    requires Inv(s)
    ensures Terminates(s, ScheduleOp) && Inv(Perform(s, ScheduleOp))
  {
    var w, j := Demoted(s.ring), IndexOf(s.ring, INIT_PID);
    assert w[j].pid == INIT_PID && w[j].state == READY;
    assert FirstReady(w) <= j;
    assert Distinct(w);
    IndexOfUnique(w, j);
    SelectKeepsInv(w, FirstReady(w), s.nextPid);
  }

  lemma RemoveKeepsInv(s: Sys, pid: int)
    requires Inv(s)
    ensures Terminates(s, RemoveOp(pid)) && Inv(Perform(s, RemoveOp(pid)))
  {
    var i := IndexOf(s.ring, pid);
    if pid == INIT_PID {
      ScheduleKeepsInv(s);
    } else if i == |s.ring| {
      assert Perform(s, RemoveOp(pid)) == s;
    } else if i == |s.ring| - 1 {
      LosingCurrentKeepsInv(s.ring, s.nextPid);
      var w := s.ring[..i];
      assert |s.ring| > 1 && Perform(s, RemoveOp(pid)) == Sys(Select(w, FirstReady(w)), s.nextPid);
    } else {
      LosingOtherKeepsInv(s.ring, i, s.nextPid);
      assert Perform(s, RemoveOp(pid)) == Sys(Without(s.ring, i), s.nextPid);
    }
  }

  lemma LosingOtherKeepsInv(v: seq<Proc>, i: nat, bound: nat)
    requires Inv(Sys(v, bound)) && i < |v| - 1 && v[i].pid != INIT_PID
    ensures Inv(Sys(Without(v, i), bound))
  {
    WithoutKeepsInit(v, i);
    DistinctWithout(v, i);
  }

  /** The current process is gone and the scheduler chooses another. */
  lemma LosingCurrentKeepsInv(v: seq<Proc>, bound: nat)
    requires Inv(Sys(v, bound)) && v[|v| - 1].pid != INIT_PID
    ensures var w := v[..|v| - 1];
            CanSchedule(w) && Inv(Sys(Select(w, FirstReady(w)), bound))
  {
    var n := |v| - 1;
    var w := v[..n];
    WithoutKeepsInit(v, n);
    assert w == Without(v, n);
    DistinctWithout(v, n);
    assert FirstReady(w) <= IndexOf(w, INIT_PID);
    SelectKeepsInv(w, FirstReady(w), bound);
  }

  /** Taking out a process other than init keeps init, and READY unless it is current. */
  lemma WithoutKeepsInit(v: seq<Proc>, i: nat)
    requires Distinct(v) && InitAlive(v) && i < |v| && v[i].pid != INIT_PID
    ensures InitAlive(Without(v, i))
    ensures i == |v| - 1 ==> Without(v, i)[IndexOf(Without(v, i), INIT_PID)].state == READY
  {
    var w, j := Without(v, i), IndexOf(v, INIT_PID);
    var at := if j < i then j else j - 1;
    assert j != i && w[at] == v[j];
    DistinctWithout(v, i);
    IndexOfUnique(w, at);
  }

  lemma DistinctWithout(v: seq<Proc>, i: nat)
    requires Distinct(v) && i < |v|
    ensures Distinct(Without(v, i))
  {
  }

  lemma StateKeepsInv(s: Sys, pid: int, st: ProcessState)
    requires Inv(s) && st != RUNNING && pid != INIT_PID
    ensures Inv(Perform(s, StateOp(pid, st)))
  {
    var j := IndexOf(s.ring, INIT_PID);
    var w := ChangeState(s.ring, pid, st);
    assert w[j] == s.ring[j];
    assert Distinct(w);
    IndexOfUnique(w, j);
  }

  lemma CreateKeepsInv(s: Sys)
    requires Inv(s)
    ensures Inv(Perform(s, CreateOp))
  {
    var w, j := Perform(s, CreateOp).ring, IndexOf(s.ring, INIT_PID);
    assert w[j + 1] == s.ring[j];
    assert Distinct(w);
    IndexOfUnique(w, j + 1);
  }

  lemma PerformKeepsInv(s: Sys, op: Op)
    requires Inv(s) && Proper(op)
    ensures Terminates(s, op) && Inv(Perform(s, op))
  {
    match op {
      case CreateOp => CreateKeepsInv(s);
      case RemoveOp(p) => RemoveKeepsInv(s, p);
      case ScheduleOp => ScheduleKeepsInv(s);
      case StateOp(p, st) => StateKeepsInv(s, p, st);
    }
  }

  ghost predicate AllTerminate(s: Sys, ops: seq<Op>)
    decreases |ops|
  {
    ops == [] || (Terminates(s, ops[0]) && AllTerminate(Perform(s, ops[0]), ops[1..]))
  }

  ghost function Run(s: Sys, ops: seq<Op>): Sys
    requires AllTerminate(s, ops)
    decreases |ops|
  {
    if ops == [] then s else Run(Perform(s, ops[0]), ops[1..])
  }

  ghost predicate AllProper(ops: seq<Op>) {
    forall i :: 0 <= i < |ops| ==> Proper(ops[i])
  }

  /** In every run of creations, removals, state changes and schedules every walk of
      the scheduler ends, pids stay distinct, and at most the current process is
      RUNNING. */
  lemma {:induction false} SchedulerNeverSticks(s: Sys, ops: seq<Op>)
    requires Inv(s) && AllProper(ops)
    ensures AllTerminate(s, ops) && Inv(Run(s, ops))
    decreases |ops|
  {
    if ops != [] {
      assert Proper(ops[0]);
      PerformKeepsInv(s, ops[0]);
      SchedulerNeverSticks(Perform(s, ops[0]), ops[1..]);
    }
  }

  // ---------------------------------------------------------------- the linked ring behind the runs

  ghost function SysOf(ring: Ring): Sys
    reads ring`slots, ring`nextPid, ring.slots`state
  {
    Sys(View(ring.slots), ring.nextPid)
  }

  /** The calls on the linked ring are the operations of the runs, and none of them hangs. */
  method Serve(ring: Ring, op: Op)
    requires ring.Valid() && Inv(SysOf(ring)) && Proper(op)
    modifies ring, ring.slots
    ensures old(Terminates(SysOf(ring), op))
    ensures ring.Valid() && SysOf(ring) == Perform(old(SysOf(ring)), op) && Inv(SysOf(ring))
  {
    PerformKeepsInv(SysOf(ring), op);
    match op {
      case CreateOp => var pid := ring.CreateProcess();
      case RemoveOp(p) => ring.RemoveProcess(p);
      case ScheduleOp => ring.Schedule();
      case StateOp(p, st) => ring.ChangeProcessState(p, st);
    }
  }

  /** The kernel starts with init as the first process. */
  lemma BootInv()
    ensures Inv(Sys([Proc(INIT_PID, READY)], 1))
  {
  }
}
