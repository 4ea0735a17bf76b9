/** The fixed-size array of waiting pids inside every mutex and semaphore.
    A free slot holds -1. New waiters take the lowest free slot and wake-ups
    take the lowest used one, so the array is a bag of pids and not a FIFO. */
module WaitSlots {
  import opened Basics

  const MAX_BLOCKED_QUEUE_SIZE := 20
  const NO_PID := -1
  const NO_SPACE_LEFT := -2

  /** The bag of pids stored in the slots. */
  ghost function Waiters(q: seq<int>): multiset<int> {
    multiset(q)[NO_PID := 0]
  }

  /** Index of the lowest free slot, or |q|. */
  function FirstFree(q: seq<int>): (i: nat)
    ensures i <= |q|
    ensures forall k :: 0 <= k < i ==> q[k] != NO_PID
    ensures i < |q| ==> q[i] == NO_PID
  {
    if q == [] || q[0] == NO_PID then 0 else 1 + FirstFree(q[1..])
  }

  /** Index of the lowest used slot, or |q|. */
  function FirstUsed(q: seq<int>): (i: nat)
    ensures i <= |q|
    ensures forall k :: 0 <= k < i ==> q[k] == NO_PID
    ensures i < |q| ==> q[i] != NO_PID
  {
    if q == [] || q[0] != NO_PID then 0 else 1 + FirstUsed(q[1..])
  }

  /** Store pid in the lowest free slot; a full array is left alone. */
  function Enter(q: seq<int>, pid: int): seq<int> {
    var i := FirstFree(q);
    if i < |q| then q[i := pid] else q
  }

  /** Clear the lowest used slot and hand its pid back. */
  function Leave(q: seq<int>): (seq<int>, Option<int>) {
    var i := FirstUsed(q);
    if i < |q| then (q[i := NO_PID], Some(q[i])) else (q, None)
  }

  function EmptySlots(n: nat): seq<int> {
    seq(n, i => NO_PID)
  }

  lemma EmptySlotsHaveNoWaiters(n: nat)
    ensures Waiters(EmptySlots(n)) == multiset{}
  {
    forall p ensures Waiters(EmptySlots(n))[p] == 0 {
      if p in multiset(EmptySlots(n)) {
        assert p in EmptySlots(n);
      }
    }
  }

  /** The bag after overwriting one slot. */
  lemma WaitersAfterUpdate(q: seq<int>, i: nat, x: int)
    requires i < |q|
    ensures x != NO_PID && q[i] == NO_PID ==> Waiters(q[i := x]) == Waiters(q) + multiset{x}
    ensures x == NO_PID && q[i] != NO_PID ==> q[i] in Waiters(q) && Waiters(q[i := x]) == Waiters(q) - multiset{q[i]}
  {
    assert multiset(q[i := x]) == multiset(q) - multiset{q[i]} + multiset{x};
  }

  /** The slots are full exactly when they hold |q| waiters. */
  lemma FullIffNoFreeSlot(q: seq<int>)
    ensures |Waiters(q)| <= |q|
    ensures |Waiters(q)| == |q| <==> FirstFree(q) == |q|
  {
    assert |multiset(q)| == |q|;
    assert |Waiters(q)| == |q| - multiset(q)[NO_PID];
    if FirstFree(q) < |q| {
      assert q[FirstFree(q)] in multiset(q);
    } else {
      assert NO_PID !in q;
    }
  }

  lemma EnterAddsOne(q: seq<int>, pid: int)
    requires pid != NO_PID && |Waiters(q)| < |q|
    ensures Waiters(Enter(q, pid)) == Waiters(q) + multiset{pid}
  {
    FullIffNoFreeSlot(q);
    WaitersAfterUpdate(q, FirstFree(q), pid);
  }

  /** Leave succeeds exactly when somebody waits, and takes one waiter out. */
  lemma LeaveRemovesOne(q: seq<int>)
    ensures var (q', who) := Leave(q);
            if |Waiters(q)| == 0 then who == None && q' == q
            else who.Some? && who.value in Waiters(q) && Waiters(q') == Waiters(q) - multiset{who.value}
  {
    var i := FirstUsed(q);
    if i < |q| {
      WaitersAfterUpdate(q, i, NO_PID);
    } else {
      forall p ensures Waiters(q)[p] == 0 {
        if p in Waiters(q) {
          assert p in q;
        }
      }
    }
  }

  /** The pid in the lowest used slot. */
  ghost predicate Lowest(q: seq<int>, p: int) {
    exists i :: 0 <= i < |q| && q[i] == p && p != NO_PID && forall j :: 0 <= j < i ==> q[j] == NO_PID
  }

  /** A wake-up takes the waiter in the lowest used slot, and changes only that slot. */
  lemma LeaveTakesLowest(q: seq<int>) returns (i: nat)
    ensures var (q', who) := Leave(q);
            && |q'| == |q| && (forall k :: 0 <= k < |q| && k != i ==> q'[k] == q[k])
            && if Waiters(q) == multiset{} then who.None? && q' == q
               else who.Some? && i < |q| && who.value == q[i] && Lowest(q, q[i]) && q'[i] == NO_PID
                    && Waiters(q') == Waiters(q) - multiset{q[i]}
  {
    LeaveRemovesOne(q);
    i := FirstUsed(q);
  }

  /** A new waiter gets the lowest free slot, and only that slot changes. */
  lemma EnterTakesLowest(q: seq<int>, pid: int) returns (i: nat)
    ensures var q' := Enter(q, pid);
            && |q'| == |q| && (forall k :: 0 <= k < i && k < |q| ==> q[k] != NO_PID)
            && (forall k :: 0 <= k < |q| && k != i ==> q'[k] == q[k])
            && (i < |q| ==> q[i] == NO_PID && q'[i] == pid)
  {
    i := FirstFree(q);
  }

  /** The scan of getFreeSpotInBlockedQueue. */
  method GetFreeSpotInBlockedQueue(blocked: array<int>) returns (index: int)
    ensures index == if FirstFree(blocked[..]) < blocked.Length then FirstFree(blocked[..]) else NO_SPACE_LEFT
  {
    var i := 0;
    while i < blocked.Length
      invariant 0 <= i <= blocked.Length
      invariant forall k :: 0 <= k < i ==> blocked[k] != NO_PID
    {
      if blocked[i] == NO_PID {
        return i;
      }
      i := i + 1;
    }
    return NO_SPACE_LEFT;
  }

  /** The scan shared by unblockProcess and unblockProcessSemaphore: the lowest
      waiter is taken out of its slot; the caller makes it READY. */
  method TakeFirstWaiter(queue: array<int>) returns (who: Option<int>)
    modifies queue
    ensures (queue[..], who) == Leave(old(queue[..]))
  {
    var i := 0;
    while i < queue.Length
      invariant 0 <= i <= queue.Length
      invariant forall k :: 0 <= k < i ==> queue[k] == NO_PID
      invariant queue[..] == old(queue[..])
    {
      if queue[i] != NO_PID {
        who := Some(queue[i]);
        queue[i] := NO_PID;
        return;
      }
      i := i + 1;
    }
    who := None;
  }
}
