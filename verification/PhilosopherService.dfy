/** What take_fork and put_fork do for hungry philosophers, alone and in every run: who asked
    for a seat has it or has an eating neighbour, and no free seat is overlooked. */
module PhilosopherService {
  import opened Bags
  import opened Basics
  import opened WaitSlots
  import M = Mutexes
  import opened Philosophers

  // ---------------------------------------------------------------- one call without interruption

  /** n steps of philosopher v lead from s to t. */
  ghost predicate Reaches(s: State, v: nat, t: State, n: nat)
    decreases n
  {
    if n == 0 then t == s else v < Total(s) == |s.cell| && Reaches(Step(s, v), v, t, n - 1)
  }

  lemma {:induction false} ReachesOn(s: State, v: nat, t: State, u: State, m: nat, n: nat)
    requires Reaches(s, v, t, m) && Reaches(t, v, u, n)
    ensures Reaches(s, v, u, m + n)
    decreases m
  {
    if m > 0 {
      ReachesOn(Step(s, v), v, t, u, m - 1, n);
    }
  }

  /** One access of testP, and all those that follow it. */
  lemma {:induction false} TestOn(s: State, v: nat, job: Job, stage: Stage) returns (n: nat)
    requires v < Total(s) == |s.cell| && s.pc[v] == Test(job, stage)
    requires Checked(s.cell, Tested(Total(s), v, job), stage)
    ensures Reaches(s, v,
                    s.(cell := Sat(s.cell, Tested(Total(s), v, job)), pc := s.pc[v := AfterTest(job)]), n)
    decreases match stage case ReadOwn => 3 case ReadLeft => 2 case ReadRight => 1 case Sit => 0
  {
    var t, u := Tested(Total(s), v, job), Step(s, v);
    if u.pc[v].Test? && u.pc[v].job == job {
      assert u.pc == s.pc[v := u.pc[v]] && u.cell == s.cell && u.lock == s.lock;
      n := TestOn(u, v, job, u.pc[v].stage);
      n := n + 1;
      assert u.pc[v := AfterTest(job)] == s.pc[v := AfterTest(job)];
    } else {
      n := 1;
      assert Reaches(u, v, u, 0);
    }
  }

  /** The critical section of take_fork, run alone step by step, is TakeFork. */
  lemma TakeAlone(s: State, v: nat) returns (n: nat)
    requires v < Total(s) == |s.cell| && s.pc[v] == TakeIn
    ensures Reaches(s, v, s.(cell := Sat(s.cell[v := HUNGRY], v), pc := s.pc[v := TakeOut]), n)
  {
    var t := Step(s, v);
    n := TestOn(t, v, TakeOwn, ReadOwn);
    assert t.pc[v := TakeOut] == s.pc[v := TakeOut];
    n := n + 1;
  }

  /** The critical section of put_fork, run alone step by step, is PutFork. */
  lemma PutAlone(s: State, v: nat) returns (n: nat)
    requires v < Total(s) == |s.cell| && s.pc[v] == PutIn
    ensures var left, right := (v + 4) % Total(s), (v + 1) % Total(s);
            Reaches(s, v, s.(cell := Sat(Sat(s.cell[v := THINKING], left), right), pc := s.pc[v := PutOut]), n)
  {
    var left, right := (v + 4) % Total(s), (v + 1) % Total(s);
    var t := Step(s, v);
    var l := TestOn(t, v, PutLeft, ReadOwn);
    var u := t.(cell := Sat(t.cell, left), pc := t.pc[v := Test(PutRight, ReadOwn)]);
    var r := TestOn(u, v, PutRight, ReadOwn);
    var w := u.(cell := Sat(u.cell, right), pc := u.pc[v := PutOut]);
    ReachesOn(t, v, u, w, l, r);
    assert w.pc == s.pc[v := PutOut];
    n := l + r + 1;
  }

  /** An open mutex that is locked and freed again is as before. */
  lemma LockAndFree(lock: M.Contention, v: nat)
    requires M.Valid(lock.m) && lock.m.word == 0
    ensures M.Perform(M.Perform(lock, M.LockBy(v)), M.FreeBy(v)) == lock
  {
    assert lock.calls + multiset{v} - multiset{v} == lock.calls;
  }

  /** One step, a stretch, and one more step. */
  lemma Around(s: State, v: nat, s1: State, s2: State, t: State, n: nat)
    requires v < Total(s) == |s.cell| && Step(s, v) == s1 && Reaches(s1, v, s2, n)
    requires v < Total(s2) == |s2.cell| && Step(s2, v) == t
    ensures Reaches(s, v, t, n + 2)
  {
    assert Reaches(s2, v, t, 1) by {
      assert Reaches(t, v, t, 0);
    }
    ReachesOn(s1, v, s2, t, n, 1);
  }

  /** take_fork as a whole, while nobody is inside: v asks and is seated if its two tested cells allow. */
  lemma TakeForkAlone(s: State, v: nat) returns (n: nat)
    requires v < Total(s) == |s.cell| && s.pc[v] == Away && M.Valid(s.lock.m) && s.lock.m.word == 0
    ensures Reaches(s, v, s.(cell := Sat(s.cell[v := HUNGRY], v), pc := s.pc[v := Seated]), n)
  {
    var s1 := Step(s, v);
    n := TakeAlone(s1, v);
    var s2 := s1.(cell := Sat(s.cell[v := HUNGRY], v), pc := s1.pc[v := TakeOut]);
    LockAndFree(s.lock, v);
    var t := s.(cell := s2.cell, pc := s.pc[v := Seated]);
    assert s2.pc[v := Seated] == s.pc[v := Seated];
    Around(s, v, s1, s2, t, n);
    n := n + 2;
  }

  /** put_fork as a whole: v thinks, and each tested neighbour that can sit now is seated. */
  lemma PutForkAlone(s: State, v: nat) returns (n: nat)
    requires v < Total(s) == |s.cell| && s.pc[v] == Seated && M.Valid(s.lock.m) && s.lock.m.word == 0
    ensures var left, right := (v + 4) % Total(s), (v + 1) % Total(s);
            Reaches(s, v, s.(cell := Sat(Sat(s.cell[v := THINKING], left), right), pc := s.pc[v := Away]), n)
  {
    var s1 := Step(s, v);
    n := PutAlone(s1, v);
    var left, right := (v + 4) % Total(s), (v + 1) % Total(s);
    var s2 := s1.(cell := Sat(Sat(s.cell[v := THINKING], left), right), pc := s1.pc[v := PutOut]);
    LockAndFree(s.lock, v);
    var t := s.(cell := s2.cell, pc := s.pc[v := Away]);
    assert s2.pc[v := Away] == s.pc[v := Away];
    Around(s, v, s1, s2, t, n);
    n := n + 2;
  }

  // ---------------------------------------------------------------- what a philosopher leaves behind

  /** What holds where philosopher v stands: what testP has found so far, and what v leaves
      behind when it is about to give the mutex back. */
  ghost predicate Answered(cell: seq<int>, v: nat, k: Pc)
    requires v < |cell|
  {
    var left, right := (v + 4) % |cell|, (v + 1) % |cell|;
    match k
    case Test(TakeOwn, _) => cell[v] == HUNGRY
    case Test(PutRight, _) => !CanSit(cell, left)
    case TakeOut => !CanSit(cell, v) && (cell[v] == HUNGRY || cell[v] == EATING)
    case PutOut => !CanSit(cell, left) && !CanSit(cell, right)
    case _ => true
  }

  ghost predicate AllAnswered(s: State)
    requires Total(s) == |s.cell|
  {
    forall v :: 0 <= v < Total(s) ==> Answered(s.cell, v, s.pc[v])
  }

  /** Seating one philosopher makes no other able to sit. */
  lemma SeatingSeatsNobodyElse(cell: seq<int>, t: nat, p: nat)
    requires t < |cell| && p < |cell| && CanSit(cell[t := EATING], p)
    ensures p != t && CanSit(cell, p)
  {
  }

  lemma StepAnswersOwn(s: State, v: nat)
    requires Inv(s) && AllAnswered(s) && Enabled(s, v)
    ensures var t := Step(s, v); Total(t) == |t.cell| == Total(s) && Answered(t.cell, v, t.pc[v])
  {
    assert Answered(s.cell, v, s.pc[v]);
    var k := s.pc[v];
    if k.Test? {
      var left, right := (v + 4) % Total(s), (v + 1) % Total(s);
      assert Checked(s.cell, Tested(Total(s), v, k.job), k.stage);
      if k.stage == Sit && k.job == PutRight && CanSit(s.cell[right := EATING], left) {
        SeatingSeatsNobodyElse(s.cell, right, left);
      }
    }
  }

  lemma StepAnswersOther(s: State, v: nat, u: nat)
    requires Inv(s) && AllAnswered(s) && Enabled(s, v) && u < Total(s) && u != v
    ensures var t := Step(s, v); Total(t) == |t.cell| == Total(s) && Answered(t.cell, u, t.pc[u])
  {
    assert Answered(s.cell, u, s.pc[u]);
    if !WritesOrReads(s.pc[v]) {
      CallStep(s, v);
    } else {
      AccessStep(s, v);
      if InMutex(s.pc[u]) {
        Alone(s, v, u);
      }
    }
  }

  lemma StepKeepsAnswered(s: State, v: nat)
    requires Inv(s) && AllAnswered(s) && Enabled(s, v)
    ensures var t := Step(s, v); Total(t) == |t.cell| == Total(s) && AllAnswered(t)
  {
    StepAnswersOwn(s, v);
    var t := Step(s, v);
    forall u | 0 <= u < Total(t) ensures Answered(t.cell, u, t.pc[u]) {
      if u != v {
        StepAnswersOther(s, v, u);
      }
    }
  }

  lemma NextKeepsAnswered(s: State, t: State)
    requires Inv(s) && AllAnswered(s) && Next(s, t)
    ensures Inv(t) && Total(t) == Total(s) && AllAnswered(t)
  {
    var v: nat :| Enabled(s, v) && t == Step(s, v);
    StepKeepsInv(s, v);
    StepKeepsAnswered(s, v);
  }

  lemma InitAnswers(s: State, slots: nat)
    requires Init(s, slots)
    ensures Inv(s) && AllAnswered(s)
  {
    InitInv(s, slots);
  }

  lemma {:induction false} RunAnswers(run: seq<State>, slots: nat, i: nat)
    requires |run| > 0 && Init(run[0], slots) && Linked(run) && i < |run|
    ensures Inv(run[i]) && Total(run[i]) == Total(run[0]) && AllAnswered(run[i])
  {
    if i == 0 {
      InitAnswers(run[0], slots);
    } else {
      RunAnswers(run, slots, i - 1);
      assert LinkAt(run, i - 1);
      NextKeepsAnswered(run[i - 1], run[i]);
    }
  }

  /** In every run, on every table and from every start: a philosopher that leaves take_fork
      eats, or one of the two cells it tested is EATING; one that leaves put_fork leaves none of
      the two it tested hungry with both tested cells free. */
  lemma EveryCallIsAnswered(run: seq<State>, slots: nat, i: nat, v: nat)
    requires IsRun(run, slots) && i < |run| && v < Total(run[i])
    ensures var (cell, total) := (run[i].cell, Total(run[i]));
            && |cell| == total
            && var left, right := (v + 4) % total, (v + 1) % total;
               && (run[i].pc[v] == TakeOut ==>
                     cell[v] == EATING || (cell[v] == HUNGRY && (cell[left] == EATING || cell[right] == EATING)))
               && (run[i].pc[v] == PutOut ==> !CanSit(cell, left) && !CanSit(cell, right))
  {
    RunAnswers(run, slots, i);
    assert Answered(run[i].cell, v, run[i].pc[v]);
  }

  // ---------------------------------------------------------------- no free seat is overlooked

  /** Philosopher v, at k, will still test place p. */
  predicate Pending(total: nat, v: nat, k: Pc, p: nat)
    requires v < total
  {
    k.Test? && (p == Tested(total, v, k.job) || (k.job == PutLeft && p == Tested(total, v, PutRight)))
  }

  ghost predicate PendingAt(pc: seq<Pc>, v: nat, p: nat) {
    v < |pc| && Pending(|pc|, v, pc[v], p)
  }

  ghost predicate SomebodyTests(pc: seq<Pc>, p: nat) {
    exists v: nat :: PendingAt(pc, v, p)
  }

  /** A philosopher that is away, or has just put the forks down, thinks. */
  predicate Thinks(k: Pc) { k.Away? || k.TakeIn? || k.PutOut? || (k.Test? && k.job != TakeOwn) }

  ghost predicate ThinkersThink(pc: seq<Pc>, cell: seq<int>)
    requires |pc| == |cell|
  {
    forall v :: 0 <= v < |pc| && Thinks(pc[v]) ==> cell[v] == THINKING
  }

  /** Whoever can sit will be tested by somebody inside. */
  ghost predicate Attentive(pc: seq<Pc>, cell: seq<int>)
    requires |pc| == |cell|
  {
    ThinkersThink(pc, cell) && forall p :: 0 <= p < |pc| && CanSit(cell, p) ==> SomebodyTests(pc, p)
  }

  /** Place p is no loss when v goes to k and the cells become `after`. */
  predicate NotLost(pc: seq<Pc>, cell: seq<int>, v: nat, k: Pc, after: seq<int>, p: nat)
    requires v < |pc| == |cell| == |after| && p < |pc|
  {
    CanSit(after, p) ==>
      Pending(|pc|, v, k, p) || (CanSit(cell, p) && !Pending(|pc|, v, pc[v], p))
  }

  lemma OneGoesOn(pc: seq<Pc>, cell: seq<int>, v: nat, k: Pc, after: seq<int>)
    requires v < |pc| == |cell| == |after| && Attentive(pc, cell) && ThinkersThink(pc[v := k], after)
    requires forall p :: 0 <= p < |pc| ==> NotLost(pc, cell, v, k, after, p)
    ensures Attentive(pc[v := k], after)
  {
    forall p | 0 <= p < |pc| && CanSit(after, p) ensures SomebodyTests(pc[v := k], p) {
      assert NotLost(pc, cell, v, k, after, p);
      if Pending(|pc|, v, k, p) {
        assert PendingAt(pc[v := k], v, p);
      } else {
        assert SomebodyTests(pc, p);
        var u: nat :| PendingAt(pc, u, p);
        assert PendingAt(pc[v := k], u, p);
      }
    }
  }

  lemma NothingLostOutside(pc: seq<Pc>, cell: seq<int>, v: nat, k: Pc, p: nat)
    requires v < |pc| == |cell| && p < |pc| && !pc[v].Test? && !k.Test?
    ensures NotLost(pc, cell, v, k, cell, p)
  {
  }

  /** A thinker becomes hungry: only he can sit now who could not before. */
  lemma NothingLostByTaking(pc: seq<Pc>, cell: seq<int>, v: nat, p: nat)
    requires v < |pc| == |cell| && p < |pc| && pc[v] == TakeIn && cell[v] == THINKING
    ensures NotLost(pc, cell, v, Test(TakeOwn, ReadOwn), cell[v := HUNGRY], p)
  {
  }

  /** Forks put down: only the two neighbours can sit now who could not before. */
  lemma NothingLostByPutting(pc: seq<Pc>, cell: seq<int>, v: nat, p: nat)
    requires v < |pc| == |cell| && p < |pc| && pc[v] == PutIn && LooksAtNeighbours(|pc|)
    ensures NotLost(pc, cell, v, Test(PutLeft, ReadOwn), cell[v := THINKING], p)
  {
  }

  /** A test that goes on, fails, or seats the philosopher it is about. */
  lemma NothingLostByTesting(pc: seq<Pc>, cell: seq<int>, v: nat, k: Pc, after: seq<int>, p: nat)
    requires v < |pc| == |cell| == |after| && p < |pc| && pc[v].Test?
    requires var job := pc[v].job; var t := Tested(|pc|, v, job);
             || (after == cell && k.Test? && k.job == job)
             || (after == cell && k == AfterTest(job) && !CanSit(cell, t))
             || (after == cell[t := EATING] && k == AfterTest(job))
    ensures NotLost(pc, cell, v, k, after, p)
  {
    var t := Tested(|pc|, v, pc[v].job);
    if after == cell[t := EATING] && CanSit(after, p) {
      SeatingSeatsNobodyElse(cell, t, p);
    }
  }

  lemma StepKeepsThinking(s: State, v: nat)
    requires Inv(s) && Enabled(s, v) && ThinkersThink(s.pc, s.cell)
    ensures var t := Step(s, v);
            Total(t) == |t.cell| == Total(s) && t.pc == s.pc[v := t.pc[v]] && ThinkersThink(t.pc, t.cell)
  {
    var k := s.pc[v];
    if k.Test? {
      assert Checked(s.cell, Tested(Total(s), v, k.job), k.stage);
    }
  }

  lemma StepLosesNothing(s: State, v: nat, p: nat)
    requires Inv(s) && Enabled(s, v) && ThinkersThink(s.pc, s.cell) && LooksAtNeighbours(Total(s)) && p < Total(s)
    ensures var t := Step(s, v);
            Total(t) == |t.cell| == Total(s) && NotLost(s.pc, s.cell, v, t.pc[v], t.cell, p)
  {
    var t := Step(s, v);
    if !WritesOrReads(s.pc[v]) {
      CallStep(s, v);
      NothingLostOutside(s.pc, s.cell, v, t.pc[v], p);
    } else if s.pc[v] == TakeIn {
      NothingLostByTaking(s.pc, s.cell, v, p);
    } else if s.pc[v] == PutIn {
      NothingLostByPutting(s.pc, s.cell, v, p);
    } else {
      NothingLostByTesting(s.pc, s.cell, v, t.pc[v], t.cell, p);
    }
  }

  lemma NextKeepsAttentive(s: State, t: State)
    requires Inv(s) && LooksAtNeighbours(Total(s)) && Attentive(s.pc, s.cell) && Next(s, t)
    ensures Inv(t) && Total(t) == Total(s) && Attentive(t.pc, t.cell)
  {
    var v: nat :| Enabled(s, v) && t == Step(s, v);
    StepKeepsInv(s, v);
    StepKeepsThinking(s, v);
    forall p | 0 <= p < Total(s) ensures NotLost(s.pc, s.cell, v, t.pc[v], t.cell, p) {
      StepLosesNothing(s, v, p);
    }
    OneGoesOn(s.pc, s.cell, v, t.pc[v], t.cell);
  }

  /** Everybody thinks at the start. */
  ghost predicate Quiet(s: State, slots: nat) {
    Init(s, slots) && forall v :: 0 <= v < Total(s) ==> s.cell[v] == THINKING
  }

  lemma {:induction false} RunIsAttentive(run: seq<State>, slots: nat, i: nat)
    requires |run| > 0 && Quiet(run[0], slots) && Linked(run) && i < |run| && LooksAtNeighbours(Total(run[0]))
    ensures Inv(run[i]) && Total(run[i]) == Total(run[0]) && Attentive(run[i].pc, run[i].cell)
  {
    if i == 0 {
      InitInv(run[0], slots);
    } else {
      RunIsAttentive(run, slots, i - 1);
      assert LinkAt(run, i - 1);
      NextKeepsAttentive(run[i - 1], run[i]);
    }
  }

  /** In every run that starts with everybody thinking, on a table of two or five places: a
      hungry philosopher whose neighbours do not eat is about to be tested by somebody inside;
      so while the mutex is free every hungry philosopher has an eating neighbour. */
  lemma NoFreeSeatIsOverlooked(run: seq<State>, slots: nat, i: nat, p: nat)
    requires IsRun(run, slots) && Quiet(run[0], slots) && LooksAtNeighbours(Total(run[0]))
    requires i < |run| && p < Total(run[0])
    ensures Total(run[i]) == |run[i].cell| == Total(run[0])
    ensures run[i].cell[p] == HUNGRY ==>
              || run[i].cell[(p + 4) % Total(run[0])] == EATING || run[i].cell[(p + 1) % Total(run[0])] == EATING
              || (SomebodyTests(run[i].pc, p) && run[i].lock.m.word == 1)
  {
    RunIsAttentive(run, slots, i);
    var s := run[i];
    if CanSit(s.cell, p) {
      assert SomebodyTests(s.pc, p);
      var v: nat :| PendingAt(s.pc, v, p);
      assert InMutex(s.pc[v]) && s.pc[v].Test?;
      TesterHoldsLock(s, v);
    }
  }

  lemma TesterHoldsLock(s: State, v: nat)
    requires Inv(s) && v < Total(s) && s.pc[v].Test?
    ensures s.lock.m.word == 1
  {
    assert v !in Waiters(s.lock.m.queue);
    InsideIsHolder(s, v);
  }
}
