/** The round-robin scheduler: a circular list of process slots that is walked,
    extended and unlinked in place. Rings are written in list order from the slot
    after the current one, so the current process comes last. */
module Scheduler {

  const INIT_PID := 0

  datatype ProcessState = RUNNING | READY | BLOCKED | DEAD | SLEEPING

  datatype Proc = Proc(pid: int, state: ProcessState)

  // ---------------------------------------------------------------- one call, on ring values

  function FirstReady(v: seq<Proc>): (k: nat)
    ensures k <= |v|
    ensures forall i :: 0 <= i < k ==> v[i].state != READY
    ensures k < |v| ==> v[k].state == READY
  {
    if v == [] || v[0].state == READY then 0 else 1 + FirstReady(v[1..])
  }

  /** The current process goes back to READY if it was RUNNING. */
  function Demoted(v: seq<Proc>): (w: seq<Proc>)
    ensures |w| == |v|
  {
    if v != [] && v[|v| - 1].state == RUNNING then v[|v| - 1 := v[|v| - 1].(state := READY)] else v
  }

  /** Process k becomes the current one. */
  function Select(v: seq<Proc>, k: nat): seq<Proc>
    requires k < |v|
  {
    v[k + 1..] + v[..k] + [v[k].(state := RUNNING)]
  }

  /** Some process can be chosen: without one the walk of schedule never ends. */
  predicate CanSchedule(v: seq<Proc>) {
    FirstReady(v) < |v|
  }

  /** Choosing is marking the process and turning the ring behind it. */
  lemma SelectTurns(v: seq<Proc>, k: nat)
    requires k < |v|
    ensures var w := v[k := v[k].(state := RUNNING)]; Select(v, k) == w[k + 1..] + w[..k + 1]
  {
  }

  function Schedule(v: seq<Proc>): seq<Proc>
    requires CanSchedule(Demoted(v))
  {
    Select(Demoted(v), FirstReady(Demoted(v)))
  }

  /** Index of a pid, or |v|. */
  function IndexOf(v: seq<Proc>, pid: int): (j: nat)
    ensures j <= |v|
    ensures forall i :: 0 <= i < j ==> v[i].pid != pid
    ensures j < |v| ==> v[j].pid == pid
  {
    if v == [] || v[0].pid == pid then 0 else 1 + IndexOf(v[1..], pid)
  }

  function ChangeState(v: seq<Proc>, pid: int, st: ProcessState): seq<Proc> {
    var j := IndexOf(v, pid);
    if j < |v| then v[j := v[j].(state := st)] else v
  }

  /** The rest of the ring without process j. */
  function Without(v: seq<Proc>, j: nat): seq<Proc>
    requires j < |v|
  {
    v[..j] + v[j + 1..]
  }

  /** Whether removeProcess ends in a schedule: it was asked to remove init, or the
      current process while others exist. */
  predicate Yields(v: seq<Proc>, pid: int) {
    v != [] && (pid == INIT_PID || (|v| > 1 && IndexOf(v, pid) == |v| - 1))
  }

  /** The ring on which that schedule works. */
  function BeforeYield(v: seq<Proc>, pid: int): seq<Proc>
    requires Yields(v, pid)
  {
    if pid == INIT_PID then Demoted(v) else v[..|v| - 1]
  }

  function Remove(v: seq<Proc>, pid: int): seq<Proc>
    requires Yields(v, pid) ==> CanSchedule(BeforeYield(v, pid))
  {
    if Yields(v, pid) then Select(BeforeYield(v, pid), FirstReady(BeforeYield(v, pid)))
    else
      var j := IndexOf(v, pid);
      if pid == INIT_PID || j == |v| then v else Without(v, j)
  }

  // ---------------------------------------------------------------- the linked ring

  class ProcessSlot {
    const pid: int
    var state: ProcessState
    var next: ProcessSlot?

    constructor (pid: int)
      ensures this.pid == pid && state == READY && next == null
    {
      this.pid, state, next := pid, READY, null;
    }
  }

  /** Slot i is linked to the next one; the last to the first. */
  ghost predicate Follows(slots: seq<ProcessSlot>, i: nat)
    requires i < |slots|
    reads slots`next
  {
    slots[i].next == slots[if i + 1 == |slots| then 0 else i + 1]
  }

  ghost predicate Linked(slots: seq<ProcessSlot>)
    reads slots`next
  {
    forall i :: 0 <= i < |slots| ==> Follows(slots, i)
  }

  ghost predicate DistinctPids(slots: seq<ProcessSlot>, bound: nat) {
    && (forall i :: 0 <= i < |slots| ==> 0 <= slots[i].pid < bound)
    && (forall i, j :: 0 <= i < j < |slots| ==> slots[i].pid != slots[j].pid)
  }

  ghost function ProcOf(s: ProcessSlot): Proc
    reads s`state
  {
    Proc(s.pid, s.state)
  }

  ghost function FirstOf(slots: seq<ProcessSlot>, n: nat): (v: seq<Proc>)
    requires n <= |slots|
    reads slots`state
    ensures |v| == n && forall i :: 0 <= i < n ==> v[i] == ProcOf(slots[i])
  {
    if n == 0 then [] else FirstOf(slots, n - 1) + [ProcOf(slots[n - 1])]
  }

  ghost function View(slots: seq<ProcessSlot>): (v: seq<Proc>)
    reads slots`state
    ensures |v| == |slots| && forall i :: 0 <= i < |v| ==> v[i] == ProcOf(slots[i])
  {
    FirstOf(slots, |slots|)
  }

  lemma DistinctAfterCons(slot: ProcessSlot, slots: seq<ProcessSlot>, bound: nat)
    requires DistinctPids(slots, bound) && slot.pid == bound
    ensures DistinctPids([slot] + slots, bound + 1)
  {
  }

  lemma ViewAfterCons(slot: ProcessSlot, slots: seq<ProcessSlot>)
    ensures View([slot] + slots) == [ProcOf(slot)] + View(slots)
  {
  }

  lemma DistinctSlots(slots: seq<ProcessSlot>, bound: nat)
    requires DistinctPids(slots, bound)
    ensures forall i, j :: 0 <= i < j < |slots| ==> slots[i] != slots[j]
  {
  }

  class Ring {
    var current: ProcessSlot?
    var cardinal: nat
    var nextPid: nat
    ghost var slots: seq<ProcessSlot>

    /** One cycle of `cardinal` slots with distinct pids. */
    ghost predicate Cycle()
      reads this, slots
    {
      cardinal == |slots| && Linked(slots) && DistinctPids(slots, nextPid)
    }

    ghost predicate Valid()
      reads this, slots
    {
      Cycle() && if slots == [] then current == null else current == slots[|slots| - 1]
    }

    constructor ()
      ensures Valid() && slots == []
    {
      current, cardinal, nextPid, slots := null, 0, 0, [];
    }

    /** addProcess: the slot goes between the current one and its successor. */
    method AddProcess(slot: ProcessSlot)
      requires Linked(slots) && slot !in slots
      requires forall i, j :: 0 <= i < j < |slots| ==> slots[i] != slots[j]
      requires if slots == [] then current == null else current == slots[|slots| - 1]
      modifies this`current, this`slots, slots`next, slot`next
      ensures slots == [slot] + old(slots) && Linked(slots) && current == slots[|slots| - 1]
    {
      ghost var before := slots;
      if current == null {
        current := slot;
        current.next := current;
      } else {
        assert Follows(slots, |slots| - 1);
        var next := current.next;
        current.next := slot;
        current.next.next := next;
      }
      slots := [slot] + slots;
      forall i | 0 <= i < |slots| ensures Follows(slots, i) {
        if 0 < i < |before| {
          assert old(Follows(before, i - 1));
        }
      }
    }

    /** createProcess: a READY process with a fresh pid. */
    method CreateProcess() returns (pid: int)
      requires Valid()
      modifies this, slots`next
      ensures Valid() && |slots| > 0 && slots == [slots[0]] + old(slots) && fresh(slots[0])
      ensures View(slots) == [Proc(pid, READY)] + old(View(slots)) && pid == old(nextPid) && nextPid == old(nextPid) + 1
    {
      pid := nextPid;
      var slot := new ProcessSlot(pid);
      Enlist(slot);
    }

    /** The insertion of a new process and the counters. */
    method Enlist(slot: ProcessSlot)
      requires Valid() && slot.pid == nextPid && slot !in slots
      modifies this, slots`next, slot`next
      ensures Valid() && slots == [slot] + old(slots) && nextPid == old(nextPid) + 1
      ensures View(slots) == [ProcOf(slot)] + old(View(slots))
    {
      ghost var before := slots;
      DistinctSlots(before, nextPid);
      DistinctAfterCons(slot, before, nextPid);
      AddProcess(slot);
      nextPid := nextPid + 1;
      cardinal := cardinal + 1;
      ViewAfterCons(slot, before);
    }

    method SetState(slot: ProcessSlot, st: ProcessState, ghost at: nat)
      requires DistinctPids(slots, nextPid) && at < |slots| && slot == slots[at]
      modifies slot`state
      ensures View(slots) == old(View(slots))[at := old(View(slots))[at].(state := st)]
    {
      slot.state := st;
    }

    /** changeProcessState. */
    method ChangeProcessState(pid: int, st: ProcessState)
      requires Valid()
      modifies slots`state
      ensures Valid() && View(slots) == ChangeState(old(View(slots)), pid, st)
    {
      var slot, at := FindFromCurrent(pid);
      if slot != null {
        SetState(slot, st, at);
      }
    }

    /** Its walk, which starts at the current slot. */
    method FindFromCurrent(pid: int) returns (slot: ProcessSlot?, ghost at: nat)
      requires Valid()
      ensures var j := IndexOf(View(slots), pid); if j < |slots| then slot == slots[j] else slot == null
      ensures at == IndexOf(View(slots), pid)
    {
      ghost var n := |slots|;
      slot := current;
      var i := 0;
      while i < cardinal
        invariant i <= cardinal == n && (n > 0 ==> slot == slots[if i == 0 then n - 1 else i - 1])
        invariant i > 0 ==> slots[n - 1].pid != pid
        invariant forall k :: 0 <= k < i - 1 ==> slots[k].pid != pid
      {
        at := if i == 0 then n - 1 else i - 1;
        if slot.pid == pid {
          IndexOfSlot(slots, nextPid, at);
          return;
        }
        assert Follows(slots, at);
        slot := slot.next;
        i := i + 1;
      }
      slot, at := null, n;
    }

    /** The current slot has been unlinked, but still points to the ring. */
    ghost predicate OffRing()
      reads this, slots, current
    {
      Cycle() && slots != [] && current != null && current !in slots && current.next == slots[0]
    }

    /** The ring that schedule walks: the current process, if it is in it, is demoted. */
    ghost function Walked(): seq<Proc>
      reads this, slots, current
    {
      if slots != [] && current == slots[|slots| - 1] then Demoted(View(slots)) else View(slots)
    }

    /** schedule: demote the current process and walk to the first READY one. */
    method Schedule()
      requires slots != [] && (Valid() || OffRing()) && CanSchedule(Walked())
      modifies this`current, this`slots, slots`state, current`state
      ensures Valid() && View(slots) == Select(old(Walked()), FirstReady(old(Walked())))
    {
      LeaveCurrent();
      ghost var k := WalkToReady();
      MakeRunning(k);
    }

    /** The last statement of schedule; the ghost view now starts after slot k. */
    method MakeRunning(ghost k: nat)
      requires Cycle() && k < |slots| && current == slots[k]
      modifies this`slots, current`state
      ensures Valid() && View(slots) == Select(old(View(slots)), k)
    {
      ghost var v := View(slots);
      SetState(current, RUNNING, k);
      ViewAfterRotation(slots, k + 1);
      RotateRing(k);
      SelectTurns(v, k);
    }

    /** The loop of schedule. */
    method WalkToReady() returns (ghost k: nat)
      requires Cycle() && slots != [] && current == slots[0] && CanSchedule(View(slots))
      modifies this`current
      ensures k == FirstReady(View(slots)) && k < |slots| && current == slots[k]
    {
      k := 0;
      while current.state != READY
        invariant k < |slots| && current == slots[k]
        invariant forall i :: 0 <= i < k ==> slots[i].state != READY
        decreases |slots| - k
      {
        assert k < FirstReady(View(slots)) && Follows(slots, k);
        current := current.next;
        k := k + 1;
      }
    }

    /** The demotion and the first step of schedule. */
    method LeaveCurrent()
      requires slots != [] && (Valid() || OffRing())
      modifies this`current, current`state
      ensures Cycle() && current == slots[0] && View(slots) == old(Walked())
    {
      ghost var last := |slots| - 1;
      assert current == slots[last] ==> Follows(slots, last);
      if current.state == RUNNING {
        Demote();
      }
      current := current.next;
    }

    method Demote()
      requires DistinctPids(slots, nextPid) && slots != [] && current != null && current.state == RUNNING
      requires current == slots[|slots| - 1] || current !in slots
      modifies current`state
      ensures View(slots) == old(Walked())
    {
      ghost var v, last := View(slots), |slots| - 1;
      current.state := READY;
      if current == slots[last] {
        forall i | 0 <= i < last ensures View(slots)[i] == v[i] {
          DifferentSlots(slots, nextPid, i, last);
        }
      }
    }

    /** Only the ghost view turns: the ring now starts after slot k. */
    ghost method RotateRing(k: nat)
      requires Cycle() && k < |slots| && current == slots[k]
      modifies this`slots
      ensures Valid() && slots == old(slots)[k + 1..] + old(slots)[..k + 1]
    {
      LinkedAfterRotation(slots, k + 1);
      DistinctAfterRotation(slots, k + 1, nextPid);
      slots := slots[k + 1..] + slots[..k + 1];
    }

    /** The search loop of removeProcess. */
    method FindSlot(pid: int) returns (prevSlot: ProcessSlot, slot: ProcessSlot, i: nat)
      requires Valid() && slots != []
      ensures i == IndexOf(View(slots), pid)
      ensures i < |slots| ==> slot == slots[i] && prevSlot == slots[if i == 0 then |slots| - 1 else i - 1]
    {
      ghost var n := |slots|;
      assert Follows(slots, n - 1);
      prevSlot, slot, i := current, current.next, 0;
      while slot.pid != pid && i < cardinal
        invariant i <= n && slot == slots[if i == n then 0 else i] && prevSlot == slots[if i == 0 then n - 1 else i - 1]
        invariant forall k :: 0 <= k < i ==> slots[k].pid != pid
        decreases n - i
      {
        assert Follows(slots, i);
        prevSlot := slot;
        slot := slot.next;
        i := i + 1;
      }
    }

    /** The assignment that takes slot j out of the ring. */
    method Bypass(prevSlot: ProcessSlot, slot: ProcessSlot, ghost j: nat)
      requires Cycle() && |slots| > 1 && j < |slots| && slot == slots[j]
      requires prevSlot == slots[if j == 0 then |slots| - 1 else j - 1]
      modifies prevSlot`next
      ensures Linked(slots[..j] + slots[j + 1..])
              && slot.next == old(slot.next) == slots[if j + 1 == |slots| then 0 else j + 1]
    {
      ghost var p, rest := if j == 0 then |slots| - 1 else j - 1, slots[..j] + slots[j + 1..];
      DifferentSlots(slots, nextPid, p, j);
      assert Follows(slots, j);
      prevSlot.next := slot.next;
      forall i | 0 <= i < |rest| ensures Follows(rest, i) {
        ghost var o := if i < j then i else i + 1;
        assert old(Follows(slots, o));
        if o != p {
          DifferentSlots(slots, nextPid, o, p);
        }
      }
    }

    /** The same with the bookkeeping of the ring. */
    method Unlink(prevSlot: ProcessSlot, slot: ProcessSlot, ghost j: nat)
      requires Valid() && |slots| > 1 && j < |slots| && slot == slots[j]
      requires prevSlot == slots[if j == 0 then |slots| - 1 else j - 1]
      modifies this`cardinal, this`slots, prevSlot`next
      ensures slots == old(slots)[..j] + old(slots)[j + 1..] && slot.next == old(slot.next)
      ensures Cycle() && slots != [] && if j == |old(slots)| - 1 then OffRing() else Valid()
    {
      ghost var before := slots;
      Bypass(prevSlot, slot, j);
      cardinal := cardinal - 1;
      slots := slots[..j] + slots[j + 1..];
      DistinctAfterRemoval(before, j, nextPid);
      RemovedIsGone(before, j, nextPid);
    }

    /** Unlink, and the comparison that tells whether the current process is gone. */
    method UnlinkFound(prevSlot: ProcessSlot, slot: ProcessSlot, ghost j: nat) returns (removedCurrent: bool)
      requires Valid() && |slots| > 1 && j < |slots| && slot == slots[j]
      requires prevSlot == slots[if j == 0 then |slots| - 1 else j - 1]
      modifies this`cardinal, this`slots, prevSlot`next
      ensures slots == old(slots)[..j] + old(slots)[j + 1..] && slot.next == old(slot.next)
      ensures removedCurrent == (j == |old(slots)| - 1)
      ensures slots != [] && if removedCurrent then OffRing() else Valid()
    {
      ghost var before := slots;
      assert j < |before| - 1 ==> before[j].pid != before[|before| - 1].pid;
      removedCurrent := slot.pid == current.pid;
      Unlink(prevSlot, slot, j);
    }

    /** removeProcess for a pid other than init, up to the final yield. The result
        says whether that yield is due. */
    method UnlinkProcess(pid: int) returns (removedCurrent: bool)
      requires Valid() && pid != INIT_PID
      modifies this`current, this`cardinal, this`slots, slots`next
      ensures var j := IndexOf(old(View(slots)), pid);
              && removedCurrent == (1 < |old(slots)| == j + 1)
              && (if removedCurrent then OffRing() && current == old(current) else Valid())
              && (if j == |old(slots)| then slots == old(slots)
                  else slots == old(slots)[..j] + old(slots)[j + 1..] && old(slots)[j].next == old(slots[j].next))
    {
      removedCurrent := false;
      if current == null {
        return;
      }
      assert Follows(slots, |slots| - 1);
      if current.next.pid == current.pid && current.pid == pid {
        current, cardinal, slots := null, cardinal - 1, [];
        return;
      }
      var prevSlot, slot, i := FindSlot(pid);
      if i == cardinal {
        return;
      }
      removedCurrent := UnlinkFound(prevSlot, slot, i);
    }

    /** Views of the ring that UnlinkProcess leaves. */
    method Detach(pid: int) returns (removedCurrent: bool)
      requires Valid() && pid != INIT_PID
      modifies this`current, this`cardinal, this`slots, slots`next
      ensures var v, j := old(View(slots)), IndexOf(old(View(slots)), pid);
              && removedCurrent == (1 < |v| == j + 1)
              && View(slots) == if j == |v| then v else Without(v, j)
      ensures if removedCurrent then OffRing() && current == old(current) && slots == old(slots)[..|old(slots)| - 1]
              else Valid()
    {
      ghost var before, v := slots, View(slots);
      removedCurrent := UnlinkProcess(pid);
      assert View(before) == v;
      if IndexOf(v, pid) < |v| {
        ViewAfterRemoval(before, IndexOf(v, pid));
      }
    }

    /** removeProcess: removing init only yields; removing the current process yields
        from a slot that is no longer in the ring. */
    method RemoveProcess(pid: int)
      requires Valid()
      requires Yields(View(slots), pid) ==> CanSchedule(BeforeYield(View(slots), pid))
      modifies this`current, this`cardinal, this`slots, slots
      ensures Valid() && View(slots) == Remove(old(View(slots)), pid) && nextPid == old(nextPid)
    {
      if pid == INIT_PID {
        if current != null {
          Schedule();
        }
        return;
      }
      ghost var v := View(slots);
      var removedCurrent := Detach(pid);
      if removedCurrent {
        assert View(slots) == v[..|v| - 1];
        assert current == old(slots[|slots| - 1]);
        Schedule();
      }
    }
  }

  lemma DifferentSlots(slots: seq<ProcessSlot>, bound: nat, i: nat, j: nat)
    requires DistinctPids(slots, bound) && i < |slots| && j < |slots| && i != j
    ensures slots[i] != slots[j]
  {
  }

  lemma RemovedIsGone(slots: seq<ProcessSlot>, j: nat, bound: nat)
    requires DistinctPids(slots, bound) && j < |slots|
    ensures slots[j] !in slots[..j] + slots[j + 1..]
  {
  }

  // ---------------------------------------------------------------- killing everybody else

  lemma IndexOfSlot(slots: seq<ProcessSlot>, bound: nat, j: nat)
    requires DistinctPids(slots, bound) && j < |slots|
    ensures IndexOf(View(slots), slots[j].pid) == j
  {
  }

  /** The processes that killAllExceptCurrent spares among the first n it meets. */
  ghost function Spared(slots: seq<ProcessSlot>, n: nat): (kept: seq<ProcessSlot>)
    requires n <= |slots|
    ensures forall k :: 0 <= k < |kept| ==> kept[k] in slots && kept[k].pid == INIT_PID
    ensures |kept| <= n
  {
    if n == 0 then [] else Spared(slots, n - 1) + if slots[n - 1].pid == INIT_PID then [slots[n - 1]] else []
  }

  lemma {:induction false} SparedIff(slots: seq<ProcessSlot>, n: nat, x: ProcessSlot)
    requires n <= |slots|
    ensures x in Spared(slots, n) <==> x in slots[..n] && x.pid == INIT_PID
    decreases n
  {
    if n > 0 {
      SparedIff(slots, n - 1, x);
      assert slots[..n] == slots[..n - 1] + [slots[n - 1]];
    }
  }

  /** removeProcess of a process that is neither init nor the current one: the
      unlinked slot still leads to its old successor. */
  method RemoveOther(ring: Ring, slot: ProcessSlot, ghost at: nat, ghost all: set<ProcessSlot>)
    requires (set s | s in ring.slots) <= all
    requires ring.Valid() && at < |ring.slots| - 1 && slot == ring.slots[at] && slot.pid != INIT_PID
    modifies ring`current, ring`cardinal, ring`slots, all`next
    ensures ring.Valid() && ring.slots == old(ring.slots)[..at] + old(ring.slots)[at + 1..]
    ensures ring.current == old(ring.current) && ring.nextPid == old(ring.nextPid)
    ensures slot.next == old(ring.slots)[at + 1]
  {
    IndexOfSlot(ring.slots, ring.nextPid, at);
    assert Follows(ring.slots, at);
    var removedCurrent := ring.UnlinkProcess(slot.pid);
  }

  /** The walk is at slot i of the old ring; of those before it, the spared remain. */
  ghost predicate Sweep(ring: Ring, all: seq<ProcessSlot>, i: nat)
    reads ring, ring.slots
  {
    && i < |all| && ring.Valid() && ring.current == all[|all| - 1]
    && ring.slots == Spared(all, i) + all[i..]
  }

  lemma SweepStarts(ring: Ring)
    requires ring.Valid() && ring.slots != []
    ensures Sweep(ring, ring.slots, 0) && ring.current.next == ring.slots[0]
  {
    assert Follows(ring.slots, |ring.slots| - 1);
    assert Spared(ring.slots, 0) + ring.slots[0..] == ring.slots;
  }

  lemma SweepEnds(ring: Ring, all: seq<ProcessSlot>, i: nat, bound: nat)
    requires Sweep(ring, all, i) && ring.current == all[i] && DistinctPids(all, bound)
    ensures ring.slots == Spared(all, |all| - 1) + [all[|all| - 1]]
  {
    DifferentUntilLast(all, bound, i);
    assert all[i..] == [all[i]];
  }

  lemma SweptSlots(all: seq<ProcessSlot>, i: nat)
    requires i <= |all|
    ensures (set s | s in Spared(all, i) + all[i..]) <= (set s | s in all)
  {
  }

  /** One turn of the loop of killAllExceptCurrent. */
  method KillStep(ring: Ring, aux: ProcessSlot, ghost all: seq<ProcessSlot>, ghost i: nat)
      returns (following: ProcessSlot)
    requires Sweep(ring, all, i) && aux == all[i] && aux != ring.current
    modifies ring`current, ring`cardinal, ring`slots, all`next
    ensures Sweep(ring, all, i + 1) && following == all[i + 1]
    ensures ring.current == old(ring.current) && ring.nextPid == old(ring.nextPid)
  {
    if aux.pid != INIT_PID {
      KillOne(ring, aux, all, i);
    } else {
      SpareOne(ring, all, i);
    }
    following := aux.next;
  }

  method KillOne(ring: Ring, aux: ProcessSlot, ghost all: seq<ProcessSlot>, ghost i: nat)
    requires Sweep(ring, all, i) && aux == all[i] && aux != ring.current && aux.pid != INIT_PID
    modifies ring`current, ring`cardinal, ring`slots, all`next
    ensures Sweep(ring, all, i + 1) && aux.next == all[i + 1]
    ensures ring.current == old(ring.current) && ring.nextPid == old(ring.nextPid)
  {
    ghost var kept := Spared(all, i);
    assert all[i..] == [aux] + all[i + 1..];
    SweptSlots(all, i);
    RemoveOther(ring, aux, |kept|, set s | s in all);
    assert ring.slots == kept + all[i + 1..];
  }

  /** init stays in the ring. */
  lemma SpareOne(ring: Ring, all: seq<ProcessSlot>, i: nat)
    requires Sweep(ring, all, i) && all[i] != ring.current && all[i].pid == INIT_PID
    ensures Sweep(ring, all, i + 1) && all[i].next == all[i + 1]
  {
    var kept := Spared(all, i);
    assert all[i..] == [all[i]] + all[i + 1..];
    assert Follows(ring.slots, |kept|);
    assert ring.slots == (kept + [all[i]]) + all[i + 1..];
  }

  /** The walk of killAllExceptCurrent, which takes slots out of the ring it walks. */
  method KillWalk(ring: Ring)
    requires ring.Valid() && ring.slots != []
    modifies ring`current, ring`cardinal, ring`slots, ring.slots`next
    ensures ring.Valid() && ring.current == old(ring.current)
    ensures var n := |old(ring.slots)|;
            ring.slots == Spared(old(ring.slots), n - 1) + [old(ring.slots)[n - 1]]
  {
    ghost var all, i := ring.slots, 0;
    SweepStarts(ring);
    var aux := ring.current.next;
    while aux != ring.current
      invariant Sweep(ring, all, i) && aux == all[i] && ring.nextPid == old(ring.nextPid)
      decreases |all| - i
    {
      aux := KillStep(ring, aux, all, i);
      i := i + 1;
    }
    SweepEnds(ring, all, i, ring.nextPid);
  }

  /** killAllExceptCurrent terminates and leaves exactly the current process and init. */
  method KillAllExceptCurrent(ring: Ring)
    requires ring.Valid() && ring.slots != []
    modifies ring`current, ring`cardinal, ring`slots, ring.slots`next
    ensures ring.Valid() && ring.current == old(ring.current)
    ensures forall s :: s in ring.slots <==> s in old(ring.slots) && (s == ring.current || s.pid == INIT_PID)
  {
    ghost var all := ring.slots;
    KillWalk(ring);
    CurrentAndInitRemain(all);
  }

  lemma CurrentAndInitRemain(slots: seq<ProcessSlot>)
    requires slots != []
    ensures var n := |slots|;
            forall s :: s in Spared(slots, n - 1) + [slots[n - 1]] <==>
                          s in slots && (s == slots[n - 1] || s.pid == INIT_PID)
  {
    var n := |slots|;
    assert slots == slots[..n - 1] + [slots[n - 1]];
    forall s: ProcessSlot
      ensures s in Spared(slots, n - 1) + [slots[n - 1]] <==> s in slots && (s == slots[n - 1] || s.pid == INIT_PID)
    {
      SparedIff(slots, n - 1, s);
    }
  }

  lemma DifferentUntilLast(slots: seq<ProcessSlot>, bound: nat, i: nat)
    requires DistinctPids(slots, bound) && i < |slots| && slots[i] == slots[|slots| - 1]
    ensures i == |slots| - 1
  {
  }

  lemma LinkedAfterRotation(slots: seq<ProcessSlot>, k: nat)
    requires Linked(slots) && k <= |slots|
    ensures Linked(slots[k..] + slots[..k])
  {
    var t := slots[k..] + slots[..k];
    forall i | 0 <= i < |t| ensures Follows(t, i) {
      assert Follows(slots, if i + k < |slots| then i + k else i + k - |slots|);
    }
  }

  lemma ViewAfterRotation(slots: seq<ProcessSlot>, k: nat)
    requires k <= |slots|
    ensures View(slots[k..] + slots[..k]) == View(slots)[k..] + View(slots)[..k]
  {
  }

  lemma ViewAfterRemoval(slots: seq<ProcessSlot>, j: nat)
    requires j < |slots|
    ensures View(slots[..j] + slots[j + 1..]) == Without(View(slots), j)
  {
  }

  lemma DistinctAfterRotation(slots: seq<ProcessSlot>, k: nat, bound: nat)
    requires DistinctPids(slots, bound) && k <= |slots|
    ensures DistinctPids(slots[k..] + slots[..k], bound)
  {
  }

  lemma DistinctAfterRemoval(slots: seq<ProcessSlot>, j: nat, bound: nat)
    requires DistinctPids(slots, bound) && j < |slots|
    ensures DistinctPids(slots[..j] + slots[j + 1..], bound)
  {
  }
}
