/** Counting semaphores: a signed counter, a bag of waiters and an inner mutex
    that wait takes and gives back. */
module Semaphores {
  import opened Basics
  import opened WaitSlots
  import M = Mutexes

  datatype SemState = SemState(value: int, blocked: nat, queue: seq<int>)

  datatype WaitOutcome =
    | Passed   // wait returns at once
    | Parked   // the caller got a slot, was made BLOCKED and yielded
    | Lost     // the slots were full: the caller was made BLOCKED and is in no slot

  // ---------------------------------------------------------------- one call

  function Wait(s: SemState, pid: int): (SemState, WaitOutcome) {
    var t := s.(value := s.value - 1);
    if t.value >= 0 then (t, Passed)
    else if FirstFree(t.queue) < |t.queue| then (t.(queue := Enter(t.queue, pid), blocked := t.blocked + 1), Parked)
    else (t, Lost)
  }

  function Signal(s: SemState): (SemState, Option<int>) {
    if s.blocked > 0 then
      var (q, who) := Leave(s.queue);
      (s.(queue := q, blocked := s.blocked - 1, value := s.value + 1), who)
    else
      (s.(value := s.value + 1), None)
  }

  function Create(start: int, slots: nat): SemState {
    SemState(start, 0, EmptySlots(slots))
  }

  function Deficit(value: int): nat {
    if value < 0 then -value else 0
  }

  /** The blocked count, the occupied slots and the debt of the counter agree. */
  ghost predicate Valid(s: SemState) {
    s.blocked == |Waiters(s.queue)| == Deficit(s.value)
  }

  lemma CreateIsValid(start: int, slots: nat)
    ensures Valid(Create(start, slots)) <==> start >= 0
    ensures Waiters(Create(start, slots).queue) == multiset{}
    ensures Create(start, slots).value == start && |Create(start, slots).queue| == slots
  {
    EmptySlotsHaveNoWaiters(slots);
  }

  /** What wait does to a valid semaphore. Validity survives exactly when the
      caller passes or finds a slot. */
  lemma WaitEffect(s: SemState, pid: int)
    requires Valid(s) && pid != NO_PID
    ensures var (s', out) := Wait(s, pid);
            && s'.value == s.value - 1 && |s'.queue| == |s.queue|
            && (out == Passed <==> s.value > 0)
            && (out == Lost <==> s.value <= 0 && |Waiters(s.queue)| == |s.queue|)
            && (Valid(s') <==> out != Lost)
            && Waiters(s'.queue) == if out == Parked then Waiters(s.queue) + multiset{pid} else Waiters(s.queue)
  {
    FullIffNoFreeSlot(s.queue);
    if |Waiters(s.queue)| < |s.queue| {
      EnterAddsOne(s.queue, pid);
    }
  }

  /** What signal does: it wakes exactly one waiter, or stores the unit when nobody waits. */
  lemma SignalEffect(s: SemState)
    requires Valid(s)
    ensures var (s', who) := Signal(s);
            && Valid(s') && s'.value == s.value + 1 && |s'.queue| == |s.queue|
            && (who == None <==> s.value >= 0)
            && (who.Some? ==>
                  who.value in Waiters(s.queue) && Waiters(s'.queue) == Waiters(s.queue) - multiset{who.value})
            && (who == None ==> s'.queue == s.queue)
  {
    LeaveRemovesOne(s.queue);
  }

  /** The slots that a parked caller enters and that a wake-up empties. */
  lemma SlotChoice(s: SemState, pid: int)
    requires Valid(s)
    ensures Wait(s, pid).1 == Parked ==> Wait(s, pid).0.queue == Enter(s.queue, pid)
    ensures Signal(s).1.Some? ==> (Signal(s).0.queue, Signal(s).1) == Leave(s.queue)
  {
  }

  // ---------------------------------------------------------------- the object

  class Semaphore {
    var value: int
    var blocked: nat
    const queue: array<int>
    const mutex: M.Mutex

    function View(): SemState
      reads this, queue
    {
      SemState(value, blocked, queue[..])
    }

    /** The inner mutex is a different object, and free between two calls. */
    ghost predicate Idle()
      reads this, mutex, mutex.queue
    {
      && queue != mutex.queue
      && M.Valid(mutex.View()) && mutex.View().word == 0
    }

    /** createSemaphore on a clean entry. */
    constructor (start: int, slots: nat, m: M.Mutex)
      requires M.Valid(m.View()) && m.View().word == 0
      ensures View() == Create(start, slots) && mutex == m && Idle() && fresh(queue)
    {
      value, blocked, mutex := start, 0, m;
      queue := new int[slots](i => NO_PID);
      new;
      assert queue[..] == EmptySlots(slots);
    }

    method AddToSemBlocked(pid: int) returns (stored: bool)
      modifies this`blocked, queue
      ensures stored == (FirstFree(old(queue[..])) < queue.Length)
      ensures View() == if FirstFree(old(queue[..])) < queue.Length
                        then old(View()).(queue := Enter(old(queue[..]), pid), blocked := old(blocked) + 1)
                        else old(View())
    {
      var index := GetFreeSpotInBlockedQueue(queue);
      if index == NO_SPACE_LEFT {
        return false;
      }
      queue[index] := pid;
      blocked := blocked + 1;
      return true;
    }

    /** wait by process pid: the inner lock is taken without blocking and given back. */
    method WaitOn(pid: int) returns (out: WaitOutcome)
      requires Idle() && pid != NO_PID
      modifies this, queue, mutex, mutex.queue
      ensures (View(), out) == Wait(old(View()), pid)
      ensures Idle() && mutex.View() == old(mutex.View())
    {
      M.LockEffect(mutex.View(), pid);
      var locked := mutex.LockMutex(pid);
      assert locked == M.Acquired;
      value := value - 1;
      if value >= 0 {
        out := Passed;
      } else {
        var stored := AddToSemBlocked(pid);
        out := if stored then Parked else Lost;
      }
      var woken := mutex.FreeMutex();
    }

    /** signal. The result is the process made READY, if any. */
    method SignalOn() returns (woken: Option<int>)
      modifies this, queue
      ensures (View(), woken) == Signal(old(View()))
    {
      woken := None;
      if blocked > 0 {
        woken := TakeFirstWaiter(queue);
        blocked := blocked - 1;
      }
      value := value + 1;
    }
  }

  // ---------------------------------------------------------------- runs

  datatype Call = WaitBy(pid: int) | SignalCall

  /** A semaphore with the number of calls made on it since it was created. */
  datatype Account = Account(s: SemState, start: nat, waits: nat, signals: nat)

  ghost function Perform(a: Account, call: Call): Account {
    match call
    case WaitBy(p) => a.(s := Wait(a.s, p).0, waits := a.waits + 1)
    case SignalCall => a.(s := Signal(a.s).0, signals := a.signals + 1)
  }

  /** Waits that have passed: every call that is not parked in a slot. */
  ghost function PassedWaits(a: Account): int {
    a.waits - |Waiters(a.s.queue)|
  }

  ghost predicate Conserved(a: Account) {
    && Valid(a.s)
    && a.s.value == a.start + a.signals - a.waits
  }

  ghost predicate NoLoss(a: Account, calls: seq<Call>)
    decreases |calls|
  {
    calls == [] ||
    (&& (calls[0].WaitBy? ==> calls[0].pid != NO_PID && Wait(a.s, calls[0].pid).1 != Lost)
     && NoLoss(Perform(a, calls[0]), calls[1..]))
  }

  ghost function RunCalls(a: Account, calls: seq<Call>): Account
    decreases |calls|
  {
    if calls == [] then a else RunCalls(Perform(a, calls[0]), calls[1..])
  }

  /** In every state of every run without a lost waiter the units are conserved:
      the waits that have passed are as many as the units supplied allow, no more
      (safety) and no fewer (no lost wake-up). */
  lemma {:induction false} SemaphoreConservation(a: Account, calls: seq<Call>)
    requires Conserved(a) && NoLoss(a, calls)
    ensures var z := RunCalls(a, calls);
            && Conserved(z) && z.start == a.start
            && PassedWaits(z) == (if z.waits < z.start + z.signals then z.waits else z.start + z.signals)
    decreases |calls|
  {
    if calls != [] {
      if calls[0].WaitBy? {
        WaitEffect(a.s, calls[0].pid);
      } else {
        SignalEffect(a.s);
      }
      SemaphoreConservation(Perform(a, calls[0]), calls[1..]);
    }
  }

  /** A wait breaks the accounting exactly when it finds no unit and no free slot. */
  lemma WaitConservesIff(a: Account, pid: int)
    requires Conserved(a) && pid != NO_PID
    ensures Conserved(Perform(a, WaitBy(pid))) <==> a.s.value > -|a.s.queue|
  {
    WaitEffect(a.s, pid);
    FullIffNoFreeSlot(a.s.queue);
  }
}
