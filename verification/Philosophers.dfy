/** The dining philosophers: a shared state array that every process reads and
    writes one cell at a time, only while it holds the kernel mutex. The kernel
    semaphores of the program are not part of the model: a philosopher may pass
    its wait at any time, so every real run is among the runs below. */
module Philosophers {
  import opened Bags
  import opened Basics
  import opened Modular
  import opened WaitSlots
  import M = Mutexes

  const THINKING := 0
  const HUNGRY := 1
  const EATING := 2

  /** The three calls of testP. */
  datatype Job = TakeOwn | PutLeft | PutRight

  /** How far testP got: it reads its own cell, then two others, then writes. */
  datatype Stage = ReadOwn | ReadLeft | ReadRight | Sit

  /** Where a philosopher is. The comment gives its next step. */
  datatype Pc =
    | Away                           // lockMutex in take_fork
    | TakeIn                         // state[v] = HUNGRY, once the lock is granted
    | Test(job: Job, stage: Stage)   // one access of testP
    | TakeOut                        // freeMutex in take_fork
    | Seated                         // lockMutex in put_fork
    | PutIn                          // state[v] = THINKING, once the lock is granted
    | PutOut                         // freeMutex in put_fork

  /** Philosopher v is process v. `cell` is the array `state`. */
  datatype State = State(pc: seq<Pc>, cell: seq<int>, lock: M.Contention)

  function Total(s: State): nat { |s.pc| }

  predicate InMutex(k: Pc) { !k.Away? && !k.Seated? }

  function Tested(total: nat, v: nat, job: Job): (t: nat)
    requires v < total
    ensures t < total
  {
    match job
    case TakeOwn => v
    case PutLeft => (v + 4) % total
    case PutRight => (v + 1) % total
  }

  /** The table sizes on which place + 4 is the left neighbour, or both neighbours are one. */
  predicate LooksAtNeighbours(total: nat) { total == 2 || total == 5 }

  function AfterTest(job: Job): Pc {
    match job
    case TakeOwn => TakeOut
    case PutLeft => Test(PutRight, ReadOwn)
    case PutRight => PutOut
  }

  ghost predicate Enabled(s: State, v: nat) {
    v < Total(s) && v !in Waiters(s.lock.m.queue)
  }

  ghost function Step(s: State, v: nat): State
    requires v < Total(s) == |s.cell|
  {
    match s.pc[v]
    case Away => s.(lock := M.Perform(s.lock, M.LockBy(v)), pc := s.pc[v := TakeIn])
    case TakeIn => s.(cell := s.cell[v := HUNGRY], pc := s.pc[v := Test(TakeOwn, ReadOwn)])
    case Test(job, stage) => TestStep(s, v, job, stage)
    case TakeOut => s.(lock := M.Perform(s.lock, M.FreeBy(v)), pc := s.pc[v := Seated])
    case Seated => s.(lock := M.Perform(s.lock, M.LockBy(v)), pc := s.pc[v := PutIn])
    case PutIn => s.(cell := s.cell[v := THINKING], pc := s.pc[v := Test(PutLeft, ReadOwn)])
    case PutOut => s.(lock := M.Perform(s.lock, M.FreeBy(v)), pc := s.pc[v := Away])
  }

  /** One access of testP(number, total): the three conjuncts of its condition in
      order, then the write. */
  function TestStep(s: State, v: nat, job: Job, stage: Stage): State
    requires v < Total(s) == |s.cell|
  {
    var t := Tested(Total(s), v, job);
    var (pass, next) :=
      match stage
      case ReadOwn => (s.cell[t] == HUNGRY, ReadLeft)
      case ReadLeft => (s.cell[(t + 4) % Total(s)] != EATING, ReadRight)
      case ReadRight => (s.cell[(t + 1) % Total(s)] != EATING, Sit)
      case Sit => (false, Sit);
    s.(cell := if stage == Sit then s.cell[t := EATING] else s.cell,
       pc := s.pc[v := if pass then Test(job, next) else AfterTest(job)])
  }

  // ---------------------------------------------------------------- the invariant

  /** Philosopher n and the next one around the table both eat. */
  ghost predicate EatTogether(cell: seq<int>, n: nat)
    requires n < |cell|
  {
    cell[n] == EATING && cell[(n + 1) % |cell|] == EATING
  }

  /** No two neighbours eat. */
  ghost predicate Safe(cell: seq<int>) {
    forall n :: 0 <= n < |cell| ==> !EatTogether(cell, n)
  }

  /** The conjuncts already read are still true. */
  ghost predicate Checked(cell: seq<int>, t: nat, stage: Stage)
    requires t < |cell|
  {
    && (stage != ReadOwn ==> cell[t] == HUNGRY)
    && (stage == ReadRight || stage == Sit ==> cell[(t + 4) % |cell|] != EATING)
    && (stage == Sit ==> cell[(t + 1) % |cell|] != EATING)
  }

  ghost predicate Shape(s: State) {
    Total(s) == |s.cell| && Total(s) <= |s.lock.m.queue|
  }

  /** Exactly the processes between lockMutex and freeMutex have an open call, one each. */
  ghost predicate Registered(pc: seq<Pc>, calls: multiset<int>) {
    && (forall p :: p in calls ==> calls[p] == 1 && 0 <= p < |pc| && InMutex(pc[p]))
    && (forall v :: 0 <= v < |pc| && InMutex(pc[v]) ==> v in calls)
  }

  /** The parked processes are at the entry of the critical section. */
  ghost predicate Parked(pc: seq<Pc>, waiting: multiset<int>) {
    forall p :: p in waiting ==> 0 <= p < |pc| && (pc[p].TakeIn? || pc[p].PutIn?)
  }

  ghost predicate Guarded(s: State) {
    M.Exclusive(s.lock) && Registered(s.pc, s.lock.calls) && Parked(s.pc, Waiters(s.lock.m.queue))
  }

  ghost predicate AllChecked(s: State)
    requires Shape(s)
  {
    forall v :: 0 <= v < Total(s) && s.pc[v].Test? ==> Checked(s.cell, Tested(Total(s), v, s.pc[v].job), s.pc[v].stage)
  }

  ghost predicate Inv(s: State) {
    Shape(s) && Guarded(s) && AllChecked(s)
  }

  /** Whoever is in the critical section and not parked is the holder, so it is alone. */
  lemma InsideIsHolder(s: State, v: nat)
    requires Shape(s) && Guarded(s) && v < Total(s) && InMutex(s.pc[v]) && v !in Waiters(s.lock.m.queue)
    ensures M.Holders(s.lock) == multiset{v}
  {
    assert v in M.Holders(s.lock);
    assert |M.Holders(s.lock)| > 0;
    SingletonBag(M.Holders(s.lock), v);
  }

  lemma Alone(s: State, v: nat, u: nat)
    requires Shape(s) && Guarded(s) && v < Total(s) && u < Total(s) && u != v
    requires InMutex(s.pc[v]) && v !in Waiters(s.lock.m.queue) && InMutex(s.pc[u])
    ensures u in Waiters(s.lock.m.queue)
  {
    InsideIsHolder(s, v);
    assert u !in M.Holders(s.lock);
  }

  /** A philosopher that calls lockMutex finds a slot: the others are too few. */
  lemma SlotLeft(s: State, v: nat)
    requires Shape(s) && Guarded(s) && v < Total(s) && !InMutex(s.pc[v])
    ensures |Waiters(s.lock.m.queue)| < |s.lock.m.queue|
  {
    BagWithinSet(s.lock.calls, Upto(Total(s)) - {v});
    DifferenceSize(s.lock.calls, Waiters(s.lock.m.queue));
  }

  lemma RegisterAfterLock(pc: seq<Pc>, calls: multiset<int>, v: nat, k: Pc)
    requires Registered(pc, calls) && v < |pc| && !InMutex(pc[v]) && InMutex(k)
    ensures Registered(pc[v := k], calls + multiset{v})
  {
    assert v !in calls;
  }

  lemma RegisterAfterFree(pc: seq<Pc>, calls: multiset<int>, v: nat, k: Pc)
    requires Registered(pc, calls) && v < |pc| && InMutex(pc[v]) && !InMutex(k)
    ensures Registered(pc[v := k], calls - multiset{v})
  {
    assert v in calls && calls[v] == 1;
  }

  lemma ParkedStays(pc: seq<Pc>, waiting: multiset<int>, fewer: multiset<int>, v: nat, k: Pc)
    requires v < |pc| && Parked(pc, waiting) && fewer <= waiting && v !in fewer
    ensures Parked(pc[v := k], fewer)
  {
    forall p | p in fewer ensures 0 <= p < |pc| && (pc[v := k][p].TakeIn? || pc[v := k][p].PutIn?) {
      assert p in waiting;
    }
  }

  lemma ParkedGrows(pc: seq<Pc>, waiting: multiset<int>, v: nat, k: Pc)
    requires v < |pc| && Parked(pc, waiting) && (k == TakeIn || k == PutIn)
    ensures Parked(pc[v := k], waiting) && Parked(pc[v := k], waiting + multiset{v})
  {
    assert forall p :: p in waiting + multiset{v} ==> p in waiting || p == v;
  }

  lemma LockGuards(pc: seq<Pc>, lock: M.Contention, v: nat, k: Pc)
    requires v < |pc| && !InMutex(pc[v]) && (k == TakeIn || k == PutIn)
    requires M.Exclusive(lock) && Registered(pc, lock.calls) && Parked(pc, Waiters(lock.m.queue))
    requires v !in Waiters(lock.m.queue) && |Waiters(lock.m.queue)| < |lock.m.queue|
    ensures var l := M.Perform(lock, M.LockBy(v));
            && M.Exclusive(l) && |l.m.queue| == |lock.m.queue|
            && Registered(pc[v := k], l.calls) && Parked(pc[v := k], Waiters(l.m.queue))
  {
    M.LockEffect(lock.m, v);
    M.LockKeepsExclusionIff(lock, v);
    RegisterAfterLock(pc, lock.calls, v, k);
    ParkedGrows(pc, Waiters(lock.m.queue), v, k);
  }

  lemma FreeGuards(pc: seq<Pc>, lock: M.Contention, v: nat, k: Pc)
    requires v < |pc| && (pc[v] == TakeOut || pc[v] == PutOut) && !InMutex(k)
    requires M.Exclusive(lock) && Registered(pc, lock.calls) && Parked(pc, Waiters(lock.m.queue))
    requires v !in Waiters(lock.m.queue) && M.Holders(lock) == multiset{v}
    ensures var l := M.Perform(lock, M.FreeBy(v));
            && M.Exclusive(l) && |l.m.queue| == |lock.m.queue|
            && Registered(pc[v := k], l.calls) && Parked(pc[v := k], Waiters(l.m.queue))
  {
    M.FreeHandsOver(lock, v);
    M.FreeEffect(lock.m);
    RegisterAfterFree(pc, lock.calls, v, k);
    ParkedStays(pc, Waiters(lock.m.queue), Waiters(M.Free(lock.m).0.queue), v, k);
  }

  lemma LockStep(s: State, v: nat)
    requires Shape(s) && v < Total(s) && (s.pc[v].Away? || s.pc[v].Seated?)
    ensures Step(s, v)
            == s.(lock := M.Perform(s.lock, M.LockBy(v)), pc := s.pc[v := if s.pc[v].Away? then TakeIn else PutIn])
  {
  }

  lemma FreeStep(s: State, v: nat)
    requires Shape(s) && v < Total(s) && (s.pc[v].TakeOut? || s.pc[v].PutOut?)
    ensures Step(s, v)
            == s.(lock := M.Perform(s.lock, M.FreeBy(v)), pc := s.pc[v := if s.pc[v].TakeOut? then Seated else Away])
  {
  }

  lemma LockKeepsGuard(s: State, v: nat)
    requires Shape(s) && Guarded(s) && Enabled(s, v) && (s.pc[v].Away? || s.pc[v].Seated?)
    ensures Shape(Step(s, v)) && Guarded(Step(s, v))
  {
    LockStep(s, v);
    SlotLeft(s, v);
    LockGuards(s.pc, s.lock, v, if s.pc[v].Away? then TakeIn else PutIn);
  }

  lemma FreeKeepsGuard(s: State, v: nat)
    requires Shape(s) && Guarded(s) && Enabled(s, v) && (s.pc[v].TakeOut? || s.pc[v].PutOut?)
    ensures Shape(Step(s, v)) && Guarded(Step(s, v))
  {
    FreeStep(s, v);
    InsideIsHolder(s, v);
    FreeGuards(s.pc, s.lock, v, if s.pc[v].TakeOut? then Seated else Away);
  }

  predicate WritesOrReads(k: Pc) { k.TakeIn? || k.PutIn? || k.Test? }

  /** An access of the state array leaves the lock alone and the philosopher inside. */
  lemma AccessStep(s: State, v: nat)
    requires Shape(s) && v < Total(s) && WritesOrReads(s.pc[v])
    ensures var t := Step(s, v);
            && t.lock == s.lock && t.pc == s.pc[v := t.pc[v]] && |t.cell| == |s.cell| && InMutex(t.pc[v])
  {
  }

  lemma InsideStays(pc: seq<Pc>, calls: multiset<int>, waiting: multiset<int>, v: nat, k: Pc)
    requires v < |pc| && InMutex(pc[v]) && InMutex(k) && v !in waiting
    requires Registered(pc, calls) && Parked(pc, waiting)
    ensures Registered(pc[v := k], calls) && Parked(pc[v := k], waiting)
  {
  }

  lemma AccessKeepsGuard(s: State, v: nat)
    requires Shape(s) && Guarded(s) && Enabled(s, v) && WritesOrReads(s.pc[v])
    ensures Shape(Step(s, v)) && Guarded(Step(s, v))
  {
    AccessStep(s, v);
    InsideStays(s.pc, s.lock.calls, Waiters(s.lock.m.queue), v, Step(s, v).pc[v]);
  }

  lemma CallStep(s: State, v: nat)
    requires Shape(s) && v < Total(s) && !WritesOrReads(s.pc[v])
    ensures Step(s, v).cell == s.cell && Step(s, v).pc == s.pc[v := Step(s, v).pc[v]] && !Step(s, v).pc[v].Test?
  {
  }

  /** The stepping philosopher: one more conjunct of testP holds. */
  lemma StepKeepsOwnChecked(s: State, v: nat)
    requires Inv(s) && v < Total(s) && WritesOrReads(s.pc[v])
    ensures var t := Step(s, v);
            Shape(t) && t.pc[v].Test? ==> Checked(t.cell, Tested(Total(s), v, t.pc[v].job), t.pc[v].stage)
  {
  }

  /** The others: whoever has read something is parked or the only one inside. */
  lemma StepKeepsChecked(s: State, v: nat, u: nat)
    requires Inv(s) && Enabled(s, v) && u < Total(s)
    ensures var t := Step(s, v);
            && Total(t) == Total(s)
            && (Shape(t) && t.pc[u].Test? ==> Checked(t.cell, Tested(Total(s), u, t.pc[u].job), t.pc[u].stage))
  {
    if !WritesOrReads(s.pc[v]) {
      CallStep(s, v);
    } else if u == v {
      StepKeepsOwnChecked(s, v);
    } else {
      AccessStep(s, v);
      if InMutex(s.pc[u]) {
        Alone(s, v, u);
      }
    }
  }

  /** Every step keeps the invariant, whatever the number of philosophers. */
  lemma StepKeepsInv(s: State, v: nat)
    requires Inv(s) && Enabled(s, v)
    ensures Inv(Step(s, v)) && Total(Step(s, v)) == Total(s)
  {
    if WritesOrReads(s.pc[v]) {
      AccessKeepsGuard(s, v);
    } else if InMutex(s.pc[v]) {
      FreeKeepsGuard(s, v);
    } else {
      LockKeepsGuard(s, v);
    }
    var t := Step(s, v);
    forall u | 0 <= u < Total(t) && t.pc[u].Test?
      ensures Checked(t.cell, Tested(Total(t), u, t.pc[u].job), t.pc[u].stage)
    {
      StepKeepsChecked(s, v, u);
    }
  }

  /** With two or five philosophers the cells that testP reads are the neighbours. */
  lemma StepKeepsSafe(s: State, v: nat)
    requires Inv(s) && Enabled(s, v) && Safe(s.cell) && LooksAtNeighbours(Total(s))
    ensures Safe(Step(s, v).cell)
  {
    var k := s.pc[v];
    if k.Test? && k.stage == Sit {
      SittingIsSafe(s.cell, Tested(Total(s), v, k.job));
    } else if k.TakeIn? {
      StandingIsSafe(s.cell, v, HUNGRY);
    } else if k.PutIn? {
      StandingIsSafe(s.cell, v, THINKING);
    }
  }

  lemma SittingIsSafe(cell: seq<int>, t: nat)
    requires LooksAtNeighbours(|cell|) && t < |cell| && Safe(cell) && Checked(cell, t, Sit)
    ensures Safe(cell[t := EATING])
  {
    var after := cell[t := EATING];
    forall n | 0 <= n < |cell| ensures !EatTogether(after, n) {
      assert !EatTogether(cell, n);
    }
  }

  lemma StandingIsSafe(cell: seq<int>, t: nat, x: int)
    requires t < |cell| && Safe(cell) && x != EATING
    ensures Safe(cell[t := x])
  {
    var after := cell[t := x];
    forall n | 0 <= n < |cell| ensures !EatTogether(after, n) {
      assert !EatTogether(cell, n);
    }
  }

  // ---------------------------------------------------------------- the procedures, alone in the mutex

  /** testP as a whole: sit down a hungry philosopher whose tested neighbours do not eat. */
  ghost function Sat(cell: seq<int>, t: nat): seq<int>
    requires t < |cell|
  {
    if Checked(cell, t, Sit) then cell[t := EATING] else cell
  }

  lemma SatIsSafe(cell: seq<int>, t: nat)
    requires LooksAtNeighbours(|cell|) && t < |cell| && Safe(cell)
    ensures Safe(Sat(cell, t))
  {
    if Checked(cell, t, Sit) {
      SittingIsSafe(cell, t);
    }
  }

  /** A hungry philosopher whose two tested cells are free. */
  predicate CanSit(cell: seq<int>, p: nat)
    requires p < |cell|
  {
    cell[p] == HUNGRY && cell[(p + 4) % |cell|] != EATING && cell[(p + 1) % |cell|] != EATING
  }

  /** The test of the first neighbour does not change the answer for the second. */
  lemma SeatsApart(thinking: seq<int>, v: nat)
    requires v < |thinking| && thinking[v] == THINKING
    ensures var left, right := (v + 4) % |thinking|, (v + 1) % |thinking|;
            && (left == right || CanSit(Sat(thinking, left), right) == CanSit(thinking, right))
            && !CanSit(Sat(thinking, left), left)
  {
    var n := |thinking|;
    TestedApart(v, n);
  }

  lemma TestedApart(v: nat, n: nat)
    requires v < n
    ensures var left, right := (v + 4) % n, (v + 1) % n;
            left == v || left == right || (left != (right + 4) % n && left != (right + 1) % n)
  {
    if n > 2 {
      IndexPlus(v + 1, 4, n);
      IndexPlus(v + 1, 1, n);
      SameLap(v + 4, v + 5, n);
      SameLap(v + 2, v + 4, n);
    }
  }

  /** The shared array and the code that philosophers run on it between lockMutex and freeMutex. */
  class Table {
    const state: array<int>

    constructor (cells: array<int>)
      ensures state == cells
    {
      state := cells;
    }

    method TestP(number: nat)
      requires number < state.Length
      modifies state
      ensures state[..] == Sat(old(state[..]), number)
      ensures state[number] == if CanSit(old(state[..]), number) then EATING else old(state[number])
      ensures forall i :: 0 <= i < state.Length && i != number ==> state[i] == old(state[i])
    {
      var total := state.Length;
      if state[number] == HUNGRY && state[(number + 4) % total] != EATING && state[(number + 1) % total] != EATING {
        state[number] := EATING;
      }
    }

    /** The critical section of take_fork: the caller eats when neither tested cell of another
        philosopher is EATING, and is HUNGRY otherwise. */
    method TakeFork(value: nat)
      requires value < state.Length
      modifies state
      ensures state[..] == Sat(old(state[..])[value := HUNGRY], value)
      ensures var left, right := (value + 4) % state.Length, (value + 1) % state.Length;
              state[value] == if (left == value || old(state[left]) != EATING)
                                 && (right == value || old(state[right]) != EATING)
                              then EATING else HUNGRY
      ensures forall i :: 0 <= i < state.Length && i != value ==> state[i] == old(state[i])
      ensures LooksAtNeighbours(state.Length) && Safe(old(state[..])) ==> Safe(state[..])
    {
      state[value] := HUNGRY;
      ghost var hungry := state[..];
      assert hungry == old(state[..])[value := HUNGRY];
      TestP(value);
      if LooksAtNeighbours(state.Length) && Safe(old(state[..])) {
        StandingIsSafe(old(state[..]), value, HUNGRY);
        SatIsSafe(hungry, value);
      }
    }

    /** The critical section of put_fork: the caller thinks, each of the two tested philosophers
        that was HUNGRY with both its own tested cells free eats now, and nobody else changes. */
    method PutFork(value: nat)
      requires value < state.Length
      modifies state
      ensures var left, right := (value + 4) % state.Length, (value + 1) % state.Length;
              && state[..] == Sat(Sat(old(state[..])[value := THINKING], left), right)
              && !Checked(state[..], left, Sit) && !Checked(state[..], right, Sit)
      ensures var left, right := (value + 4) % state.Length, (value + 1) % state.Length;
              var thinking := old(state[..])[value := THINKING];
              forall i :: 0 <= i < state.Length ==>
                state[i] == if (i == left || i == right) && CanSit(thinking, i) then EATING else thinking[i]
      ensures LooksAtNeighbours(state.Length) && Safe(old(state[..])) ==> Safe(state[..])
    {
      state[value] := THINKING;
      ghost var thinking := state[..];
      assert thinking == old(state[..])[value := THINKING];
      TestP((value + 4) % state.Length);
      ghost var tested := state[..];
      TestP((value + 1) % state.Length);
      SeatsApart(thinking, value);
      if LooksAtNeighbours(state.Length) && Safe(old(state[..])) {
        StandingIsSafe(old(state[..]), value, THINKING);
        SatIsSafe(thinking, (value + 4) % state.Length);
        SatIsSafe(tested, (value + 1) % state.Length);
      }
    }
  }

  // ---------------------------------------------------------------- runs

  /** The state array is not initialised by the program: any contents without EATING. */
  ghost predicate Init(s: State, slots: nat) {
    && |s.pc| == |s.cell| <= slots < WORD32
    && (forall v :: 0 <= v < |s.pc| ==> s.pc[v] == Away && s.cell[v] != EATING)
    && s.lock == M.Contention(M.Fresh(slots), multiset{})
  }

  lemma InitInv(s: State, slots: nat)
    requires Init(s, slots)
    ensures Inv(s) && Safe(s.cell)
  {
    M.FreshIsExclusive(slots);
    EmptySlotsHaveNoWaiters(slots);
  }

  ghost predicate Next(s: State, t: State) {
    Shape(s) && exists v: nat :: Enabled(s, v) && t == Step(s, v)
  }

  ghost predicate LinkAt(run: seq<State>, i: nat)
    requires i + 1 < |run|
  {
    Next(run[i], run[i + 1])
  }

  ghost predicate Linked(run: seq<State>) {
    forall i :: 0 <= i < |run| - 1 ==> LinkAt(run, i)
  }

  /** A run, as the states it goes through. */
  ghost predicate IsRun(run: seq<State>, slots: nat) {
    |run| > 0 && Init(run[0], slots) && Linked(run)
  }

  lemma NextKeepsInv(s: State, t: State)
    requires Inv(s) && Next(s, t)
    ensures Inv(t) && Total(t) == Total(s)
    ensures LooksAtNeighbours(Total(s)) && Safe(s.cell) ==> Safe(t.cell)
  {
    var v: nat :| Enabled(s, v) && t == Step(s, v);
    StepKeepsInv(s, v);
    if LooksAtNeighbours(Total(s)) && Safe(s.cell) {
      StepKeepsSafe(s, v);
    }
  }

  lemma {:induction false} RunKeepsInv(run: seq<State>, slots: nat, i: nat)
    requires |run| > 0 && Init(run[0], slots) && Linked(run) && i < |run|
    ensures Inv(run[i]) && Total(run[i]) == Total(run[0])
    ensures LooksAtNeighbours(Total(run[0])) ==> Safe(run[i].cell)
  {
    if i == 0 {
      InitInv(run[0], slots);
    } else {
      RunKeepsInv(run, slots, i - 1);
      assert LinkAt(run, i - 1);
      NextKeepsInv(run[i - 1], run[i]);
    }
  }

  /** In every state of every run of the five philosophers no two neighbours eat together. */
  lemma NeighboursNeverEatTogether(run: seq<State>, slots: nat, i: nat, n: nat)
    requires IsRun(run, slots) && i < |run| && n < Total(run[0]) == 5
    ensures |run[i].cell| == 5 && !EatTogether(run[i].cell, n)
  {
    RunKeepsInv(run, slots, i);
  }

  // ---------------------------------------------------------------- other table sizes

  /** The lock while v alone holds it. */
  ghost function HeldBy(slots: nat, v: nat): M.Contention {
    M.Contention(M.Fresh(slots).(word := 1), multiset{v})
  }

  lemma FreshLockCycle(slots: nat, v: nat)
    requires slots < WORD32
    ensures M.Perform(M.Contention(M.Fresh(slots), multiset{}), M.LockBy(v)) == HeldBy(slots, v)
    ensures M.Perform(HeldBy(slots, v), M.FreeBy(v)) == M.Contention(M.Fresh(slots), multiset{})
    ensures v !in Waiters(M.Fresh(slots).queue)
  {
    EmptySlotsHaveNoWaiters(slots);
    assert multiset{} + multiset{v} - multiset{v} == multiset{};
  }

  /** Philosopher v can sit down alone: nobody is inside and its two tested cells are free. */
  ghost predicate MealReady(s: State, v: nat, slots: nat) {
    && 2 <= |s.pc| == |s.cell| <= slots < WORD32 && v < |s.pc| && s.pc[v] == Away
    && s.lock == M.Contention(M.Fresh(slots), multiset{})
    && ((v + 4) % |s.pc| != v ==> s.cell[(v + 4) % |s.pc|] != EATING)
    && s.cell[(v + 1) % |s.pc|] != EATING
  }

  /** The state after i undisturbed steps of v. */
  ghost function Meal(s: State, v: nat, slots: nat, i: nat): State
    requires MealReady(s, v, slots) && i <= 7
  {
    var pc: Pc :=
      if i == 0 then Away else if i == 1 then TakeIn
      else if i == 2 then Test(TakeOwn, ReadOwn) else if i == 3 then Test(TakeOwn, ReadLeft)
      else if i == 4 then Test(TakeOwn, ReadRight) else if i == 5 then Test(TakeOwn, Sit)
      else if i == 6 then TakeOut else Seated;
    State(s.pc[v := pc],
          if i <= 1 then s.cell else if i <= 5 then s.cell[v := HUNGRY] else s.cell[v := EATING],
          if i == 0 || i == 7 then s.lock else HeldBy(slots, v))
  }

  lemma MealStep(s: State, v: nat, slots: nat, i: nat)
    requires MealReady(s, v, slots) && i < 7
    ensures var t := Meal(s, v, slots, i);
            Shape(t) && Enabled(t, v) && Step(t, v) == Meal(s, v, slots, i + 1)
  {
    FreshLockCycle(slots, v);
    var t := Meal(s, v, slots, i);
    assert (v + 1) % |s.pc| != v;
  }

  lemma MealTrace(s: State, v: nat, slots: nat) returns (run: seq<State>)
    requires MealReady(s, v, slots)
    ensures |run| == 8 && Linked(run)
    ensures run[0] == s && run[7] == s.(pc := s.pc[v := Seated], cell := s.cell[v := EATING])
  {
    run := seq(8, i requires 0 <= i < 8 => Meal(s, v, slots, i));
    forall i | 0 <= i < 7 ensures LinkAt(run, i) {
      MealStep(s, v, slots, i);
    }
  }

  lemma JoinTraces(first: seq<State>, second: seq<State>)
    requires |first| > 0 && |second| > 0 && first[|first| - 1] == second[0]
    requires Linked(first) && Linked(second)
    ensures Linked(first + second[1..])
  {
    var run, n := first + second[1..], |first| - 1;
    forall i | 0 <= i < |run| - 1 ensures LinkAt(run, i) {
      if i < n {
        assert LinkAt(first, i);
      } else {
        assert LinkAt(second, i - n);
      }
    }
  }

  lemma EmptyTable(total: nat, slots: nat) returns (s: State)
    requires 2 <= total <= slots < WORD32
    ensures Init(s, slots) && Total(s) == total && forall v :: 0 <= v < total ==> s.cell[v] == THINKING
    ensures forall v :: 0 <= v < total ==> MealReady(s, v, slots)
  {
    s := State(seq(total, i => Away), seq(total, i => THINKING), M.Contention(M.Fresh(slots), multiset{}));
  }

  lemma SecondIsReady(s: State, t: State, slots: nat)
    requires MealReady(s, 0, slots) && MealReady(s, 1, slots) && !LooksAtNeighbours(Total(s))
    requires t == s.(pc := s.pc[0 := Seated], cell := s.cell[0 := EATING])
    ensures MealReady(t, 1, slots)
  {
    WrongCells(Total(s));
  }

  lemma TwoMealsTrace(s: State, slots: nat) returns (run: seq<State>)
    requires MealReady(s, 0, slots) && MealReady(s, 1, slots) && !LooksAtNeighbours(Total(s))
    ensures |run| > 0 && Linked(run) && run[0] == s
    ensures run[|run| - 1].cell == s.cell[0 := EATING][1 := EATING]
  {
    var first := MealTrace(s, 0, slots);
    SecondIsReady(s, first[7], slots);
    var second := MealTrace(first[7], 1, slots);
    run := first + second[1..];
    JoinTraces(first, second);
  }

  /** A table where testP looks at the wrong cells: philosophers 0 and 1 eat together. */
  lemma TwoMeals(total: nat, slots: nat) returns (run: seq<State>)
    requires 2 <= total <= slots < WORD32 && !LooksAtNeighbours(total)
    ensures IsRun(run, slots) && Total(run[0]) == total && !Safe(run[|run| - 1].cell)
  {
    var s := EmptyTable(total, slots);
    run := TwoMealsTrace(s, slots);
    NeighboursEat(s.cell);
  }

  lemma NeighboursEat(cell: seq<int>)
    requires |cell| >= 2
    ensures !Safe(cell[0 := EATING][1 := EATING])
  {
    assert 1 % |cell| == 1;
    assert EatTogether(cell[0 := EATING][1 := EATING], 0);
  }

  lemma WrongCells(total: nat)
    requires 2 <= total && !LooksAtNeighbours(total)
    ensures (1 + 4) % total != 0 && (1 + 1) % total != 0
  {
    if total > 5 {
      assert 5 % total == 5;
    }
  }

  /** The protocol is safe on a table of n places exactly for n = 2 and n = 5, because
      testP looks at place + 4 for the left neighbour. */
  lemma SafeExactlyForTwoAndFive(total: nat, slots: nat)
    requires 2 <= total <= slots < WORD32
    ensures (forall run: seq<State>, i: nat :: IsRun(run, slots) && Total(run[0]) == total && i < |run| ==>
               Safe(run[i].cell))
            <==> LooksAtNeighbours(total)
  {
    if LooksAtNeighbours(total) {
      forall run: seq<State>, i: nat | IsRun(run, slots) && Total(run[0]) == total && i < |run|
        ensures Safe(run[i].cell)
      {
        RunKeepsInv(run, slots, i);
      }
    } else {
      var run := TwoMeals(total, slots);
    }
  }
}
