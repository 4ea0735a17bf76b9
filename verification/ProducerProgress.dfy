/** How far the producer/consumer program gets: what one round of a producer or a consumer does,
    and that in every interleaving the steps taken turn into items moved. */
module ProducerProgress {
  import opened WaitSlots
  import S = Semaphores
  import opened ProducerConsumer

  // ---------------------------------------------------------------- one round without interruption

  /** n steps of process p lead from s to t. */
  ghost predicate Reaches(s: State, p: int, c: char, t: State, n: nat)
    decreases n
  {
    if n == 0 then t == s
    else p in s.pc && |s.buffer| > 0 && Reaches(Step(s, p, c), p, c, t, n - 1)
  }

  /** A semaphore that gives a unit and gets it back is as before. */
  lemma GiveAndTake(s: S.SemState, p: int)
    requires S.Valid(s) && s.value > 0
    ensures S.Wait(s, p).0 == s.(value := s.value - 1) && S.Signal(S.Wait(s, p).0).0 == s
  {
  }

  /** Two steps that lead from s to t. */
  ghost predicate Two(s: State, p: int, c: char, t: State) {
    p in s.pc && |s.buffer| > 0 && p in Step(s, p, c).pc && |Step(s, p, c).buffer| > 0 && Step(Step(s, p, c), p, c) == t
  }

  lemma TwoMore(s: State, p: int, c: char, t: State, u: State, n: nat)
    requires Two(s, p, c, t) && Reaches(t, p, c, u, n)
    ensures Reaches(s, p, c, u, n + 2)
  {
    assert Reaches(Step(s, p, c), p, c, u, n + 1);
  }

  lemma RoundOf(s: State, p: int, c: char, s2: State, s4: State, s6: State, t: State)
    requires Two(s, p, c, s2) && Two(s2, p, c, s4) && Two(s4, p, c, s6) && Two(s6, p, c, t)
    ensures Reaches(s, p, c, t, 8)
  {
    TwoMore(s6, p, c, t, t, 0);
    TwoMore(s4, p, c, s6, t, 2);
    TwoMore(s2, p, c, s4, t, 4);
    TwoMore(s, p, c, s2, t, 6);
  }

  /** A producer that finds room and nobody inside: one unit of emptyCount becomes an item in the
      buffer and a unit of fullCount. */
  lemma ProducerRound(s: State, p: int, c: char, t: State)
    requires p in s.pc && s.pc[p] == PIdle && s.w < |s.buffer|
    requires S.Valid(s.empty) && S.Valid(s.mutex) && s.empty.value > 0 && s.mutex.value > 0
    requires t == s.(empty := s.empty.(value := s.empty.value - 1), full := S.Signal(s.full).0,
                     buffer := s.buffer[s.w := c], w := (s.w + 1) % |s.buffer|, inserted := s.inserted + [c])
    ensures Reaches(s, p, c, t, 8)
  {
    GiveAndTake(s.empty, p);
    GiveAndTake(s.mutex, p);
    var s2 := s.(empty := t.empty, mutex := S.Wait(s.mutex, p).0, pc := s.pc[p := PEntered(c)]);
    var s4 := s2.(buffer := t.buffer, pc := s.pc[p := PStored(c)]);
    var s6 := s4.(w := t.w, inserted := t.inserted, pc := s.pc[p := PInserted]);
    assert Two(s, p, c, s2);
    assert Two(s2, p, c, s4);
    assert Two(s4, p, c, s6);
    assert Two(s6, p, c, t);
    RoundOf(s, p, c, s2, s4, s6, t);
  }

  lemma WaitTwo(s: State, p: int, c: char)
    requires p in s.pc && s.pc[p] == CIdle && |s.buffer| > 0
    ensures Two(s, p, c, s.(full := S.Wait(s.full, p).0, mutex := S.Wait(s.mutex, p).0, pc := s.pc[p := CEntered]))
  {
  }

  lemma SignalTwo(s: State, p: int, c: char, item: char)
    requires p in s.pc && s.pc[p] == CRemoved(item) && |s.buffer| > 0
    ensures Two(s, p, c, s.(mutex := S.Signal(s.mutex).0, empty := S.Signal(s.empty).0, pc := s.pc[p := CIdle]))
  {
  }

  lemma FetchTwo(s: State, p: int, c: char)
    requires p in s.pc && s.pc[p] == CEntered && s.r < |s.buffer|
    ensures Two(s, p, c, s.(pc := s.pc[p := CFetched(s.buffer[s.r])]))
  {
  }

  lemma RemoveTwo(s: State, p: int, c: char, item: char)
    requires p in s.pc && s.pc[p] == CFetched(item) && |s.buffer| > 0
    ensures Two(s, p, c, s.(r := (s.r + 1) % |s.buffer|, removed := s.removed + [item],
                            pc := s.pc[p := CRemoved(item)]))
  {
  }

  /** A consumer that finds an item and nobody inside: it takes the item at r, and one unit of
      fullCount becomes one of emptyCount. */
  lemma ConsumerRound(s: State, p: int, c: char, t: State)
    requires p in s.pc && s.pc[p] == CIdle && s.r < |s.buffer|
    requires S.Valid(s.full) && S.Valid(s.mutex) && s.full.value > 0 && s.mutex.value > 0
    requires t == s.(full := s.full.(value := s.full.value - 1), empty := S.Signal(s.empty).0,
                     r := (s.r + 1) % |s.buffer|, removed := s.removed + [s.buffer[s.r]])
    ensures Reaches(s, p, c, t, 8)
  {
    GiveAndTake(s.full, p);
    GiveAndTake(s.mutex, p);
    var item := s.buffer[s.r];
    var s2 := s.(full := t.full, mutex := S.Wait(s.mutex, p).0, pc := s.pc[p := CEntered]);
    var s4 := s2.(pc := s.pc[p := CFetched(item)]);
    var s6 := s4.(r := t.r, removed := t.removed, pc := s.pc[p := CRemoved(item)]);
    assert s2.pc[p := CFetched(item)] == s4.pc && s4.pc[p := CRemoved(item)] == s6.pc && s6.pc[p := CIdle] == s.pc;
    WaitTwo(s, p, c);
    FetchTwo(s2, p, c);
    RemoveTwo(s4, p, c, item);
    SignalTwo(s6, p, c, item);
    RoundOf(s, p, c, s2, s4, s6, t);
  }

  // ---------------------------------------------------------------- steps and items

  /** The steps of a round taken so far, plus two; once the item is moved, minus those of a round. */
  function Rank(k: Pc): (n: nat)
    ensures n <= 7
  {
    match k
    case PInserted | CRemoved(_) => 0
    case PLeft | CLeft(_) => 1
    case PIdle | CIdle => 2
    case PReserved(_) | CReserved => 3
    case PEntered(_) | CEntered => 4
    case PIndexed(_, _) | CIndexed(_) => 5
    case PStored(_) | CFetched(_) => 6
    case PLoaded(_, _) | CLoaded(_, _) => 7
  }

  ghost function AtLeast(pc: map<int, Pc>, n: nat): set<int> {
    set p | p in pc && Rank(pc[p]) >= n
  }

  /** The ranks of all processes from rank n on, added up. */
  ghost function RankSum(pc: map<int, Pc>, n: nat): nat
    decreases 8 - n
  {
    if n > 7 then 0 else |AtLeast(pc, n)| + RankSum(pc, n + 1)
  }

  /** What a process of rank r adds to the sum. */
  function Share(r: nat, n: nat): nat { if r >= n then r - n + 1 else 0 }

  lemma AtLeastUpdate(pc: map<int, Pc>, p: int, k: Pc, n: nat)
    requires p in pc
    ensures |AtLeast(pc[p := k], n)| + (if Rank(pc[p]) >= n then 1 else 0)
            == |AtLeast(pc, n)| + (if Rank(k) >= n then 1 else 0)
  {
    var rest := AtLeast(pc, n) - {p};
    assert AtLeast(pc, n) == if Rank(pc[p]) >= n then rest + {p} else rest;
    assert AtLeast(pc[p := k], n) == if Rank(k) >= n then rest + {p} else rest;
  }

  lemma {:induction false} RankSumUpdate(pc: map<int, Pc>, p: int, k: Pc, n: nat)
    requires p in pc
    ensures RankSum(pc[p := k], n) + Share(Rank(pc[p]), n) == RankSum(pc, n) + Share(Rank(k), n)
    decreases 8 - n
  {
    if n <= 7 {
      AtLeastUpdate(pc, p, k, n);
      RankSumUpdate(pc, p, k, n + 1);
    }
  }

  /** Every step adds one to eight times the items moved plus the ranks. */
  ghost function Work(s: State): nat {
    8 * (|s.inserted| + |s.removed|) + RankSum(s.pc, 1)
  }

  lemma StepMovesOn(s: State, p: int, c: char)
    requires p in s.pc && |s.buffer| > 0
    ensures var t := Step(s, p, c);
            && p in t.pc && t.pc == s.pc[p := t.pc[p]]
            && 8 * (|t.inserted| + |t.removed|) + Rank(t.pc[p]) == 8 * (|s.inserted| + |s.removed|) + Rank(s.pc[p]) + 1
  {
  }

  lemma StepIsWork(s: State, p: int, c: char)
    requires p in s.pc && |s.buffer| > 0
    ensures Work(Step(s, p, c)) == Work(s) + 1
  {
    var t := Step(s, p, c);
    StepMovesOn(s, p, c);
    RankSumUpdate(s.pc, p, t.pc[p], 1);
  }

  lemma {:induction false} RunIsWork(s: State, run: seq<(int, char)>)
    requires Legal(s, run)
    ensures Work(Run(s, run)) == Work(s) + |run|
    decreases |run|
  {
    if run != [] {
      StepIsWork(s, run[0].0, run[0].1);
      RunIsWork(Step(s, run[0].0, run[0].1), run[1..]);
    }
  }

  lemma {:induction false} RankSumBound(pc: map<int, Pc>, n: nat)
    requires n <= 8
    ensures RankSum(pc, n) <= (8 - n) * |pc.Keys|
    decreases 8 - n
  {
    if n <= 7 {
      SubsetSize(AtLeast(pc, n), pc.Keys);
      RankSumBound(pc, n + 1);
    }
  }

  lemma {:induction false} SubsetSize(a: set<int>, b: set<int>)
    requires a <= b
    ensures |a| <= |b|
  {
    assert b == a + (b - a);
  }

  lemma {:induction false} RankSumAtStart(pc: map<int, Pc>, n: nat)
    requires n <= 8 && forall p :: p in pc ==> pc[p] == PIdle || pc[p] == CIdle
    ensures RankSum(pc, n) == Share(2, n) * |pc.Keys|
    decreases 8 - n
  {
    if n <= 7 {
      RankSumAtStart(pc, n + 1);
      forall p ensures p in AtLeast(pc, n) <==> p in pc && n <= 2 {
      }
      assert AtLeast(pc, n) == if n <= 2 then pc.Keys else {};
    }
  }

  lemma WorkAtStart(s: State, producers: set<int>, consumers: set<int>, slots: nat)
    requires Init(s, producers, consumers, slots)
    ensures |s.pc.Keys| == |producers| + |consumers| && Work(s) == 2 * |s.pc.Keys|
  {
    assert s.pc.Keys == producers + consumers;
    RankSumAtStart(s.pc, 1);
  }

  lemma WorkBound(z: State)
    ensures 8 * (|z.inserted| + |z.removed|) <= Work(z) <= 8 * (|z.inserted| + |z.removed|) + 7 * |z.pc.Keys|
  {
    RankSumBound(z.pc, 1);
  }

  lemma {:induction false} RunKeepsProcesses(s: State, run: seq<(int, char)>)
    requires Legal(s, run)
    ensures Run(s, run).pc.Keys == s.pc.Keys
    decreases |run|
  {
    if run != [] {
      StepShape(s, run[0].0, run[0].1);
      RunKeepsProcesses(Step(s, run[0].0, run[0].1), run[1..]);
    }
  }

  /** In every interleaving, eight steps of the processes move one item in or out, up to the
      rounds that are not finished: nobody takes steps without getting on. Together with
      NoDeadlock the program never stops moving items. */
  lemma StepsMoveItems(s: State, producers: set<int>, consumers: set<int>, slots: nat, run: seq<(int, char)>)
    requires Init(s, producers, consumers, slots) && Legal(s, run)
    ensures var z, processes := Run(s, run), |producers| + |consumers|;
            && 8 * (|z.inserted| + |z.removed|) <= |run| + 2 * processes
            && |run| <= 8 * (|z.inserted| + |z.removed|) + 5 * processes
  {
    WorkAtStart(s, producers, consumers, slots);
    RunIsWork(s, run);
    RunKeepsProcesses(s, run);
    WorkBound(Run(s, run));
  }
}
