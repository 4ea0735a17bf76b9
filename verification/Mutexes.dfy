/** Named mutexes: an 8-byte compare-exchange, a bag of waiters and direct
    hand-off of the lock to one waiter. */
module Mutexes {
  import opened Bags
  import opened Basics
  import opened WaitSlots

  /** `word` is the field `mutex`, `blocked` the field `cardinalBlocked` that
      follows it in memory. Both are 32-bit. */
  datatype MutexState = MutexState(word: nat, blocked: nat, queue: seq<int>)

  datatype LockOutcome =
    | Acquired   // lockMutex returns at once
    | Queued     // the caller got a slot, was made BLOCKED and yielded
    | Overflow   // the queue was full: the caller yields, and returns without the lock

  // ---------------------------------------------------------------- the atomic instruction

  /** CMPXCHG8B on the quadword high:low: when it equals edx:eax it becomes ecx:ebx.
      The result is the new memory and the zero flag. */
  function CompareExchange8(low: nat, high: nat, eax: nat, edx: nat, ebx: nat, ecx: nat): (nat, nat, bool) {
    if low + WORD32 * high == eax + WORD32 * edx then (ebx, ecx, true) else (low, high, false)
  }

  /** _testAndSet: all four registers are cleared and ebx is incremented. The
      quadword starts at `mutex`, so `cardinalBlocked` is its high half. */
  function TestAndSet(m: MutexState): (MutexState, bool) {
    var (low, high, zf) := CompareExchange8(m.word, m.blocked, 0, 0, 1, 0);
    (m.(word := low, blocked := high), zf)
  }

  /** What _testAndSet is meant to be: a test-and-set of the lock word alone. */
  function OneWordTestAndSet(m: MutexState): (MutexState, bool) {
    if m.word == 0 then (m.(word := 1), true) else (m, false)
  }

  /** The wide exchange is the one-word test-and-set except on a free lock with
      a non-zero waiter count, which it refuses instead of erasing. */
  lemma WideExchangeIsTestAndSet(m: MutexState)
    ensures TestAndSet(m) == OneWordTestAndSet(m) <==> !(m.word == 0 && m.blocked != 0)
    ensures TestAndSet(m).0.blocked == m.blocked && TestAndSet(m).0.queue == m.queue
  {
  }

  // ---------------------------------------------------------------- one call

  function Lock(m: MutexState, pid: int): (MutexState, LockOutcome) {
    var (t, ok) := TestAndSet(m);
    if ok then (t, Acquired)
    else if t.blocked >= |t.queue| then (t, Overflow)
    else if FirstFree(t.queue) < |t.queue| then (t.(queue := Enter(t.queue, pid), blocked := t.blocked + 1), Queued)
    else (t, Queued)
  }

  function Free(m: MutexState): (MutexState, Option<int>) {
    if m.blocked > 0 then
      var (q, who) := Leave(m.queue);
      (m.(queue := q, blocked := m.blocked - 1), who)
    else
      (m.(word := 0), None)
  }

  function Fresh(slots: nat): MutexState {
    MutexState(0, 0, EmptySlots(slots))
  }

  /** The waiter count is the number of occupied slots and a free lock has no waiters. */
  ghost predicate Valid(m: MutexState) {
    && m.word <= 1 && |m.queue| < WORD32
    && m.blocked == |Waiters(m.queue)|
    && (m.word == 0 ==> m.blocked == 0)
  }

  lemma FreshIsValid(slots: nat)
    requires slots < WORD32
    ensures Valid(Fresh(slots)) && Fresh(slots).word == 0 && |Fresh(slots).queue| == slots
  {
    EmptySlotsHaveNoWaiters(slots);
  }

  /** What a lock call does to a valid mutex, in terms of the bag of waiters:
      free lock, held lock with room, held lock with a full queue. */
  lemma LockEffect(m: MutexState, pid: int)
    requires Valid(m) && pid != NO_PID
    ensures var (m', out) := Lock(m, pid);
            && Valid(m') && m'.word == 1 && |m'.queue| == |m.queue|
            && (out == Acquired <==> m.word == 0)
            && (out == Overflow <==> m.word == 1 && |Waiters(m.queue)| == |m.queue|)
            && Waiters(m'.queue) == if out == Queued then Waiters(m.queue) + multiset{pid} else Waiters(m.queue)
  {
    FullIffNoFreeSlot(m.queue);
    WideExchangeIsTestAndSet(m);
    if |Waiters(m.queue)| < |m.queue| {
      EnterAddsOne(m.queue, pid);
    }
  }

  /** What freeing does: hand the lock to one waiter, or open it when nobody waits. */
  lemma FreeEffect(m: MutexState)
    requires Valid(m) && m.word == 1
    ensures var (m', who) := Free(m);
            && Valid(m') && |m'.queue| == |m.queue|
            && (who == None <==> |Waiters(m.queue)| == 0) && (m'.word == 1 <==> who.Some?)
            && (who.Some? ==>
                  who.value in Waiters(m.queue) && Waiters(m'.queue) == Waiters(m.queue) - multiset{who.value})
            && (who == None ==> m'.queue == m.queue)
  {
    LeaveRemovesOne(m.queue);
  }

  /** The slots that a queued caller enters and that a wake-up empties. */
  lemma SlotChoice(m: MutexState, pid: int)
    requires Valid(m)
    ensures Lock(m, pid).1 == Queued ==> Lock(m, pid).0.queue == Enter(m.queue, pid)
    ensures Free(m).1.Some? ==> (Free(m).0.queue, Free(m).1) == Leave(m.queue)
  {
  }

  // ---------------------------------------------------------------- the object

  class Mutex {
    var word: nat
    var blocked: nat
    const queue: array<int>

    function View(): MutexState
      reads this, queue
    {
      MutexState(word, blocked, queue[..])
    }

    /** cleanMutex on a new object. */
    constructor (slots: nat)
      ensures View() == Fresh(slots) && fresh(queue)
    {
      word, blocked := 0, 0;
      queue := new int[slots](i => NO_PID);
      new;
      assert queue[..] == EmptySlots(slots);
    }

    /** _testAndSet on the quadword formed by the two fields. */
    method TestAndSetWord() returns (ok: bool)
      modifies this
      ensures (View(), ok) == TestAndSet(old(View()))
    {
      var (low, high, zf) := CompareExchange8(word, blocked, 0, 0, 1, 0);
      word, blocked, ok := low, high, zf;
    }

    method AddToBlocked(pid: int)
      modifies this`blocked, queue
      ensures View() == if FirstFree(old(queue[..])) < queue.Length
                        then old(View()).(queue := Enter(old(queue[..]), pid), blocked := old(blocked) + 1)
                        else old(View())
    {
      var index := GetFreeSpotInBlockedQueue(queue);
      if index == NO_SPACE_LEFT {
        return;
      }
      queue[index] := pid;
      blocked := blocked + 1;
    }

    /** lockMutex by process pid. The outcome tells the scheduler what to do with it. */
    method LockMutex(pid: int) returns (out: LockOutcome)
      modifies this, queue
      ensures (View(), out) == Lock(old(View()), pid)
    {
      var ok := TestAndSetWord();
      if ok {
        return Acquired;
      }
      if blocked >= queue.Length {
        return Overflow;
      }
      AddToBlocked(pid);
      return Queued;
    }

    /** freeMutex. The result is the process made READY, if any. */
    method FreeMutex() returns (woken: Option<int>)
      modifies this, queue
      ensures (View(), woken) == Free(old(View()))
    {
      if blocked > 0 {
        woken := TakeFirstWaiter(queue);
        blocked := blocked - 1;
      } else {
        word := 0;
        woken := None;
      }
    }
  }

  // ---------------------------------------------------------------- runs

  /** A mutex with the calls its clients made: one occurrence of a pid in `calls`
      for each of its lockMutex calls that it has not undone by freeMutex. */
  datatype Contention = Contention(m: MutexState, calls: multiset<int>)

  datatype Call = LockBy(pid: int) | FreeBy(pid: int)

  /** The processes whose lockMutex has returned (or may return): those that called
      and are not parked in a slot. */
  ghost function Holders(c: Contention): multiset<int> {
    c.calls - Waiters(c.m.queue)
  }

  /** A parked process makes no call, and only a holder frees. */
  ghost predicate Allowed(c: Contention, call: Call) {
    match call
    case LockBy(p) => p != NO_PID && p !in Waiters(c.m.queue)
    case FreeBy(p) => p in Holders(c) && p !in Waiters(c.m.queue)
  }

  ghost function Perform(c: Contention, call: Call): Contention {
    match call
    case LockBy(p) => Contention(Lock(c.m, p).0, c.calls + multiset{p})
    case FreeBy(p) => Contention(Free(c.m).0, c.calls - multiset{p})
  }

  /** Mutual exclusion: the lock word counts the holders, so there is at most one. */
  ghost predicate Exclusive(c: Contention) {
    && Valid(c.m)
    && Waiters(c.m.queue) <= c.calls
    && |Holders(c)| == c.m.word
  }

  /** A lock call keeps mutual exclusion exactly when it does not meet a held lock
      whose slots are all taken. */
  lemma LockKeepsExclusionIff(c: Contention, p: int)
    requires Exclusive(c) && Allowed(c, LockBy(p))
    ensures Exclusive(Perform(c, LockBy(p))) <==> !(c.m.word == 1 && |Waiters(c.m.queue)| == |c.m.queue|)
    ensures c.m.word == 1 && |Waiters(c.m.queue)| == |c.m.queue| ==> |Holders(Perform(c, LockBy(p)))| == 2
  {
    LockEffect(c.m, p);
    var d := Perform(c, LockBy(p));
    DifferenceSize(c.calls, Waiters(c.m.queue));
    DifferenceSize(d.calls, Waiters(d.m.queue));
  }

  /** Moving w from the waiters to the holders while p leaves. */
  lemma BagHandOver(calls: multiset<int>, waiting: multiset<int>, p: int, w: int)
    requires waiting <= calls && calls - waiting == multiset{p} && w in waiting
    ensures waiting - multiset{w} <= calls - multiset{p}
    ensures (calls - multiset{p}) - (waiting - multiset{w}) == multiset{w}
  {
    assert calls == waiting + multiset{p};
    assert calls - multiset{p} == waiting;
  }

  /** Freeing takes the lock from the caller and gives it to exactly one waiter,
      or to nobody when none waits. */
  lemma FreeHandsOver(c: Contention, p: int)
    requires Exclusive(c) && Allowed(c, FreeBy(p))
    ensures Exclusive(Perform(c, FreeBy(p))) && Holders(c) == multiset{p}
    ensures match Free(c.m).1
            case Some(w) => w in Waiters(c.m.queue) && Holders(Perform(c, FreeBy(p))) == multiset{w}
            case None => Holders(Perform(c, FreeBy(p))) == multiset{} && Waiters(c.m.queue) == multiset{}
  {
    assert |Holders(c)| > 0;
    SingletonBag(Holders(c), p);
    FreeEffect(c.m);
    var waiting := Waiters(c.m.queue);
    assert c.calls == waiting + multiset{p};
    var (m', woken) := Free(c.m);
    if woken.Some? {
      BagHandOver(c.calls, waiting, p, woken.value);
    } else {
      assert waiting == multiset{};
      assert c.calls - multiset{p} == multiset{};
    }
  }

  /** No call of the run meets a held lock with full slots. */
  ghost predicate NoOverflow(c: Contention, calls: seq<Call>)
    decreases |calls|
  {
    calls == [] ||
    (&& Allowed(c, calls[0])
     && (calls[0].LockBy? ==> Lock(c.m, calls[0].pid).1 != Overflow)
     && NoOverflow(Perform(c, calls[0]), calls[1..]))
  }

  ghost function RunCalls(c: Contention, calls: seq<Call>): Contention
    decreases |calls|
  {
    if calls == [] then c else RunCalls(Perform(c, calls[0]), calls[1..])
  }

  /** In every state of every run that never overflows the slots at most one
      process holds the mutex, the lock is closed exactly when one does, and the
      waiter count is the number of parked processes. */
  lemma {:induction false} MutualExclusion(c: Contention, calls: seq<Call>)
    requires Exclusive(c) && NoOverflow(c, calls)
    ensures Exclusive(RunCalls(c, calls))
    ensures |Holders(RunCalls(c, calls))| <= 1
    decreases |calls|
  {
    if calls != [] {
      if calls[0].LockBy? {
        LockEffect(c.m, calls[0].pid);
        LockKeepsExclusionIff(c, calls[0].pid);
      } else {
        FreeHandsOver(c, calls[0].pid);
      }
      MutualExclusion(Perform(c, calls[0]), calls[1..]);
    }
  }

  lemma FreshIsExclusive(slots: nat)
    requires slots < WORD32
    ensures Exclusive(Contention(Fresh(slots), multiset{}))
  {
    EmptySlotsHaveNoWaiters(slots);
  }

  // ---------------------------------------------------------------- one waiter too many

  /** lockMutex by processes j, j + 1, ..., j + n - 1. */
  function Locks(j: nat, n: nat): seq<Call>
    decreases n
  {
    if n == 0 then [] else [LockBy(j)] + Locks(j + 1, n - 1)
  }

  ghost predicate AllAllowed(c: Contention, calls: seq<Call>)
    decreases |calls|
  {
    calls == [] || (Allowed(c, calls[0]) && AllAllowed(Perform(c, calls[0]), calls[1..]))
  }

  /** One of the processes below j holds the mutex and the others wait in its slots. */
  ghost predicate Crowded(c: Contention, j: nat) {
    && Exclusive(c) && c.m.word == 1 && |Waiters(c.m.queue)| + 1 == j
    && forall p :: p in c.calls ==> 0 <= p < j
  }

  lemma FirstLock(slots: nat)
    requires slots < WORD32
    ensures var c := Contention(Fresh(slots), multiset{});
            Allowed(c, LockBy(0)) && Crowded(Perform(c, LockBy(0)), 1) && |Perform(c, LockBy(0)).m.queue| == slots
  {
    EmptySlotsHaveNoWaiters(slots);
    FreshIsExclusive(slots);
    LockEffect(Fresh(slots), 0);
    LockKeepsExclusionIff(Contention(Fresh(slots), multiset{}), 0);
  }

  lemma NextLock(c: Contention, j: nat)
    requires Crowded(c, j)
    ensures Allowed(c, LockBy(j)) && |Perform(c, LockBy(j)).m.queue| == |c.m.queue|
    ensures j <= |c.m.queue| ==> Crowded(Perform(c, LockBy(j)), j + 1)
    ensures j > |c.m.queue| ==> |Holders(Perform(c, LockBy(j)))| == 2
  {
    assert j !in Waiters(c.m.queue) by {
      assert j !in c.calls;
    }
    FullIffNoFreeSlot(c.m.queue);
    LockEffect(c.m, j);
    LockKeepsExclusionIff(c, j);
  }

  /** The run is one that clients may make, and it ends with two holders. */
  ghost predicate EndsWithTwo(c: Contention, calls: seq<Call>) {
    AllAllowed(c, calls) && |Holders(RunCalls(c, calls))| == 2
  }

  lemma OneCallBefore(c: Contention, call: Call, d: Contention, rest: seq<Call>)
    requires Allowed(c, call) && d == Perform(c, call) && EndsWithTwo(d, rest)
    ensures EndsWithTwo(c, [call] + rest)
  {
    assert ([call] + rest)[1..] == rest;
  }

  lemma LastLock(c: Contention, j: nat)
    requires Crowded(c, j) && j == |c.m.queue| + 1
    ensures EndsWithTwo(c, Locks(j, 1))
  {
    var d := Perform(c, LockBy(j));
    NextLock(c, j);
    assert EndsWithTwo(d, []);
    OneCallBefore(c, LockBy(j), d, []);
    assert Locks(j + 1, 0) == [];
  }

  lemma {:induction false} TwoHoldersFrom(c: Contention, j: nat, n: nat)
    requires Crowded(c, j) && j + n == |c.m.queue| + 1
    ensures EndsWithTwo(c, Locks(j, n + 1))
    decreases n, 1
  {
    if n == 0 {
      LastLock(c, j);
    } else {
      MoreLocks(c, j, n);
    }
  }

  lemma {:induction false} MoreLocks(c: Contention, j: nat, n: nat)
    requires Crowded(c, j) && j + n == |c.m.queue| + 1 && n > 0
    ensures EndsWithTwo(c, [LockBy(j)] + Locks(j + 1, n))
    decreases n, 0
  {
    var d := Perform(c, LockBy(j));
    NextLock(c, j);
    TwoHoldersFrom(d, j + 1, n - 1);
    OneCallBefore(c, LockBy(j), d, Locks(j + 1, n));
  }

  /** On every mutex, from its clean state: one process takes the lock, one for each slot
      waits, and one more lockMutex returns although the mutex is held. */
  lemma OverflowEndsExclusion(slots: nat)
    requires slots < WORD32
    ensures EndsWithTwo(Contention(Fresh(slots), multiset{}), Locks(0, slots + 2))
  {
    var c := Contention(Fresh(slots), multiset{});
    FirstLock(slots);
    TwoHoldersFrom(Perform(c, LockBy(0)), 1, slots);
    OneCallBefore(c, LockBy(0), Perform(c, LockBy(0)), Locks(1, slots + 1));
  }
}
