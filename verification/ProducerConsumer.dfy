/** The producer/consumer program: any interleaving of single system calls and
    single accesses to shared memory, on top of three kernel semaphores. */
module ProducerConsumer {
  import opened WaitSlots
  import opened Bags
  import opened Modular
  import S = Semaphores

  /** Where a process is. The comment gives its next step. `at` is an index it
      has loaded into a register and `item` the value it carries. */
  datatype Pc =
    | PIdle                           // wait(emptyCount)
    | PReserved(item: char)           // wait(itemMutex), once the first wait has passed
    | PEntered(item: char)            // load w, once the second wait has passed
    | PIndexed(item: char, at: nat)   // buffer[at] = item
    | PStored(item: char)             // load w
    | PLoaded(item: char, at: nat)    // w = (at + 1) % bufferSize
    | PInserted                       // signal(itemMutex)
    | PLeft                           // signal(fullCount)
    | CIdle                           // wait(fullCount)
    | CReserved                       // wait(itemMutex), once the first wait has passed
    | CEntered                        // load r, once the second wait has passed
    | CIndexed(at: nat)               // result = buffer[at]
    | CFetched(item: char)            // load r
    | CLoaded(item: char, at: nat)    // r = (at + 1) % bufferSize
    | CRemoved(item: char)            // signal(itemMutex)
    | CLeft(item: char)               // signal(emptyCount)

  /** `inserted` and `removed` are the histories of completed insertItem and removeItem. */
  datatype State = State(
    pc: map<int, Pc>,
    mutex: S.SemState, full: S.SemState, empty: S.SemState,
    buffer: seq<char>, r: nat, w: nat,
    inserted: seq<char>, removed: seq<char>)

  ghost predicate Blocked(s: State, p: int) {
    p in Waiters(s.mutex.queue) || p in Waiters(s.full.queue) || p in Waiters(s.empty.queue)
  }

  ghost predicate Enabled(s: State, p: int) {
    p in s.pc && !Blocked(s, p)
  }

  /** One step of process p. `c` is the item an idle producer makes. */
  function Step(s: State, p: int, c: char): State
    requires p in s.pc && |s.buffer| > 0
  {
    match s.pc[p]
    case PIdle => s.(empty := S.Wait(s.empty, p).0, pc := s.pc[p := PReserved(c)])
    case PReserved(i) => s.(mutex := S.Wait(s.mutex, p).0, pc := s.pc[p := PEntered(i)])
    case PEntered(i) => s.(pc := s.pc[p := PIndexed(i, s.w)])
    case PIndexed(i, at) =>
      s.(buffer := if at < |s.buffer| then s.buffer[at := i] else s.buffer, pc := s.pc[p := PStored(i)])
    case PStored(i) => s.(pc := s.pc[p := PLoaded(i, s.w)])
    case PLoaded(i, at) =>
      s.(w := (at + 1) % |s.buffer|, inserted := s.inserted + [i], pc := s.pc[p := PInserted])
    case PInserted => s.(mutex := S.Signal(s.mutex).0, pc := s.pc[p := PLeft])
    case PLeft => s.(full := S.Signal(s.full).0, pc := s.pc[p := PIdle])
    case CIdle => s.(full := S.Wait(s.full, p).0, pc := s.pc[p := CReserved])
    case CReserved => s.(mutex := S.Wait(s.mutex, p).0, pc := s.pc[p := CEntered])
    case CEntered => s.(pc := s.pc[p := CIndexed(s.r)])
    case CIndexed(at) =>
      s.(pc := s.pc[p := CFetched(if at < |s.buffer| then s.buffer[at] else ' ')])
    case CFetched(i) => s.(pc := s.pc[p := CLoaded(i, s.r)])
    case CLoaded(i, at) =>
      s.(r := (at + 1) % |s.buffer|, removed := s.removed + [i], pc := s.pc[p := CRemoved(i)])
    case CRemoved(i) => s.(mutex := S.Signal(s.mutex).0, pc := s.pc[p := CLeft(i)])
    case CLeft(i) => s.(empty := S.Signal(s.empty).0, pc := s.pc[p := CIdle])
  }

  // ---------------------------------------------------------------- counting processes

  /** Stretches of the two programs, and the three points where a process can be parked. */
  datatype Zone = TookEmpty | OwesFull | TookFull | OwesEmpty | Critical | EmptyGate | FullGate | MutexGate

  predicate In(k: Pc, z: Zone) {
    match z
    case TookEmpty => k.PReserved? || k.PEntered? || k.PIndexed? || k.PStored? || k.PLoaded?
    case OwesFull => k.PInserted? || k.PLeft?
    case TookFull => k.CReserved? || k.CEntered? || k.CIndexed? || k.CFetched? || k.CLoaded?
    case OwesEmpty => k.CRemoved? || k.CLeft?
    case Critical =>
      || k.PEntered? || k.PIndexed? || k.PStored? || k.PLoaded? || k.PInserted?
      || k.CEntered? || k.CIndexed? || k.CFetched? || k.CLoaded? || k.CRemoved?
    case EmptyGate => k.PReserved?
    case FullGate => k.CReserved?
    case MutexGate => k.PEntered? || k.CEntered?
  }

  ghost function At(pc: map<int, Pc>, z: Zone): set<int> {
    set p | p in pc && In(pc[p], z)
  }

  function Unit(b: bool): int { if b then 1 else 0 }

  /** Moving one process changes the population of a zone by its own share. */
  lemma CountUpdate(pc: map<int, Pc>, p: int, k: Pc, z: Zone)
    requires p in pc
    ensures |At(pc[p := k], z)| == |At(pc, z)| - Unit(In(pc[p], z)) + Unit(In(k, z))
  {
    if In(pc[p], z) && !In(k, z) {
      Leaves(pc, p, k, z);
    } else if !In(pc[p], z) && In(k, z) {
      Enters(pc, p, k, z);
    } else {
      SamePopulation(pc, p, k, z);
    }
  }

  lemma Leaves(pc: map<int, Pc>, p: int, k: Pc, z: Zone)
    requires p in pc && In(pc[p], z) && !In(k, z)
    ensures |At(pc[p := k], z)| == |At(pc, z)| - 1
  {
    assert At(pc[p := k], z) == At(pc, z) - {p};
  }

  lemma Enters(pc: map<int, Pc>, p: int, k: Pc, z: Zone)
    requires p in pc && !In(pc[p], z) && In(k, z)
    ensures |At(pc[p := k], z)| == |At(pc, z)| + 1
  {
    assert At(pc[p := k], z) == At(pc, z) + {p};
  }

  lemma SamePopulation(pc: map<int, Pc>, p: int, k: Pc, z: Zone)
    requires p in pc && In(pc[p], z) == In(k, z)
    ensures At(pc[p := k], z) == At(pc, z)
  {
  }

  // ---------------------------------------------------------------- the invariant

  /** The semaphore is valid, has a slot for everybody, and its waiters are parked
      once each at its gate. */
  ghost predicate Gate(pc: map<int, Pc>, s: S.SemState, z: Zone) {
    && S.Valid(s)
    && |pc| <= |s.queue|
    && forall p :: p in Waiters(s.queue) ==> Waiters(s.queue)[p] == 1 && p in pc && In(pc[p], z)
  }

  ghost predicate Gates(s: State) {
    && NO_PID !in s.pc
    && Gate(s.pc, s.mutex, MutexGate) && Gate(s.pc, s.full, FullGate) && Gate(s.pc, s.empty, EmptyGate)
  }

  /** Each counter is what it started from, less the units that processes hold. */
  ghost predicate Balance(s: State) {
    && s.mutex.value == 1 - |At(s.pc, Critical)|
    && s.empty.value == |s.buffer| - |s.inserted| + |s.removed| - |At(s.pc, TookEmpty)| - |At(s.pc, OwesEmpty)|
    && s.full.value == |s.inserted| - |s.removed| - |At(s.pc, TookFull)| - |At(s.pc, OwesFull)|
  }

  /** The three semaphores account for every process. */
  ghost predicate Accounts(s: State) {
    Gates(s) && Balance(s)
  }

  /** The buffer holds the unread items at their positions. */
  ghost predicate Holds(buffer: seq<char>, r: nat, w: nat, inserted: seq<char>, removed: seq<char>) {
    && |buffer| > 0
    && |removed| <= |inserted| <= |removed| + |buffer|
    && removed == inserted[..|removed|]
    && r == |removed| % |buffer| && w == |inserted| % |buffer|
    && forall k :: |removed| <= k < |inserted| ==> buffer[k % |buffer|] == inserted[k]
  }

  ghost predicate Ring(s: State) {
    Holds(s.buffer, s.r, s.w, s.inserted, s.removed)
  }

  /** What the registers of process p say about the shared variables. */
  ghost predicate Registers(s: State, k: Pc) {
    match k
    case PIndexed(_, at) => at == s.w
    case PStored(i) => s.w < |s.buffer| && s.buffer[s.w] == i
    case PLoaded(i, at) => at == s.w && s.w < |s.buffer| && s.buffer[s.w] == i
    case CIndexed(at) => at == s.r
    case CFetched(i) => |s.removed| < |s.inserted| && s.inserted[|s.removed|] == i
    case CLoaded(i, at) => at == s.r && |s.removed| < |s.inserted| && s.inserted[|s.removed|] == i
    case _ => true
  }

  ghost predicate Truthful(s: State) {
    forall p :: p in s.pc ==> Registers(s, s.pc[p])
  }

  ghost predicate Inv(s: State) {
    Accounts(s) && Ring(s) && Truthful(s)
  }

  // ---------------------------------------------------------------- consequences of the accounts

  /** At most one process is inside the critical section and not parked. */
  lemma OneInside(s: State, p: int, q: int)
    requires Accounts(s) && p in s.pc && q in s.pc && p != q
    requires In(s.pc[p], Critical) && p !in Waiters(s.mutex.queue)
    requires In(s.pc[q], Critical)
    ensures q in Waiters(s.mutex.queue)
  {
    var c := At(s.pc, Critical);
    assert |c - {p, q}| == |c| - 2 by { assert c == (c - {p, q}) + {p, q}; }
    if q !in Waiters(s.mutex.queue) {
      BagWithinSet(Waiters(s.mutex.queue), c - {p, q});
    }
  }

  /** A process that took a unit in zone z and is not parked at its gate is one more
      than the debt of the semaphore. */
  lemma UnparkedMember(pc: map<int, Pc>, s: S.SemState, gate: Zone, z: Zone, p: int)
    requires Gate(pc, s, gate) && p in pc && In(pc[p], z) && p !in Waiters(s.queue)
    requires forall k: Pc :: In(k, gate) ==> In(k, z)
    ensures |At(pc, z)| > S.Deficit(s.value)
  {
    BagWithinSet(Waiters(s.queue), At(pc, z) - {p});
  }

  /** A producer that has passed wait(emptyCount) and not inserted yet has room. */
  lemma RoomToInsert(s: State, p: int)
    requires Accounts(s) && p in s.pc && In(s.pc[p], TookEmpty) && p !in Waiters(s.empty.queue)
    ensures |s.inserted| - |s.removed| < |s.buffer|
  {
    UnparkedMember(s.pc, s.empty, EmptyGate, TookEmpty, p);
  }

  /** A consumer that has passed wait(fullCount) and not removed yet has an item. */
  lemma ItemToRemove(s: State, p: int)
    requires Accounts(s) && p in s.pc && In(s.pc[p], TookFull) && p !in Waiters(s.full.queue)
    ensures |s.inserted| - |s.removed| > 0
  {
    UnparkedMember(s.pc, s.full, FullGate, TookFull, p);
  }

  /** A process that calls wait always finds a slot: the others are too few. */
  lemma SlotLeft(pc: map<int, Pc>, s: S.SemState, gate: Zone, p: int)
    requires Gate(pc, s, gate) && p in pc && p !in Waiters(s.queue) && p != NO_PID
    ensures |Waiters(s.queue)| < |s.queue| && S.Wait(s, p).1 != S.Lost
  {
    assert |pc.Keys - {p}| == |pc.Keys| - 1;
    BagWithinSet(Waiters(s.queue), pc.Keys - {p});
    S.WaitEffect(s, p);
  }

  // ---------------------------------------------------------------- every step keeps the accounts

  lemma SameSize(pc: map<int, Pc>, p: int, k: Pc)
    requires p in pc
    ensures |pc[p := k]| == |pc|
  {
    assert pc[p := k].Keys == pc.Keys;
  }

  lemma GateStays(pc: map<int, Pc>, s: S.SemState, gate: Zone, p: int, k: Pc)
    requires Gate(pc, s, gate) && p in pc && p !in Waiters(s.queue)
    ensures Gate(pc[p := k], s, gate)
  {
    SameSize(pc, p, k);
  }

  lemma GateAfterWait(pc: map<int, Pc>, s: S.SemState, gate: Zone, p: int, k: Pc)
    requires Gate(pc, s, gate) && p in pc && p !in Waiters(s.queue) && p != NO_PID && In(k, gate)
    ensures Gate(pc[p := k], S.Wait(s, p).0, gate) && S.Wait(s, p).0.value == s.value - 1
  {
    SameSize(pc, p, k);
    SlotLeft(pc, s, gate, p);
    S.WaitEffect(s, p);
  }

  lemma GateAfterSignal(pc: map<int, Pc>, s: S.SemState, gate: Zone, p: int, k: Pc)
    requires Gate(pc, s, gate) && p in pc && p !in Waiters(s.queue)
    ensures Gate(pc[p := k], S.Signal(s).0, gate) && S.Signal(s).0.value == s.value + 1
  {
    SameSize(pc, p, k);
    S.SignalEffect(s);
  }

  lemma CountsAfter(pc: map<int, Pc>, p: int, k: Pc)
    requires p in pc
    ensures |At(pc[p := k], Critical)| == |At(pc, Critical)| - Unit(In(pc[p], Critical)) + Unit(In(k, Critical))
    ensures |At(pc[p := k], TookEmpty)| == |At(pc, TookEmpty)| - Unit(In(pc[p], TookEmpty)) + Unit(In(k, TookEmpty))
    ensures |At(pc[p := k], OwesEmpty)| == |At(pc, OwesEmpty)| - Unit(In(pc[p], OwesEmpty)) + Unit(In(k, OwesEmpty))
    ensures |At(pc[p := k], TookFull)| == |At(pc, TookFull)| - Unit(In(pc[p], TookFull)) + Unit(In(k, TookFull))
    ensures |At(pc[p := k], OwesFull)| == |At(pc, OwesFull)| - Unit(In(pc[p], OwesFull)) + Unit(In(k, OwesFull))
  {
    CountUpdate(pc, p, k, Critical);
    CountUpdate(pc, p, k, TookEmpty);
    CountUpdate(pc, p, k, OwesEmpty);
    CountUpdate(pc, p, k, TookFull);
    CountUpdate(pc, p, k, OwesFull);
  }

  /** The next step is a system call. */
  predicate Calls(k: Pc) {
    k.PIdle? || k.CIdle? || k.PReserved? || k.CReserved? || k.PInserted? || k.CRemoved? || k.PLeft? || k.CLeft?
  }

  lemma GatesStay(s: State, p: int, k: Pc)
    requires Gates(s) && Enabled(s, p)
    ensures Gate(s.pc[p := k], s.mutex, MutexGate)
    ensures Gate(s.pc[p := k], s.full, FullGate)
    ensures Gate(s.pc[p := k], s.empty, EmptyGate)
  {
    GateStays(s.pc, s.mutex, MutexGate, p, k);
    GateStays(s.pc, s.full, FullGate, p, k);
    GateStays(s.pc, s.empty, EmptyGate, p, k);
  }

  lemma WaitKeepsGates(s: State, p: int, c: char)
    requires Gates(s) && Enabled(s, p) && |s.buffer| > 0
    requires s.pc[p].PIdle? || s.pc[p].CIdle? || s.pc[p].PReserved? || s.pc[p].CReserved?
    ensures Gates(Step(s, p, c))
  {
    var k := Step(s, p, c).pc[p];
    GatesStay(s, p, k);
    if s.pc[p].PIdle? {
      GateAfterWait(s.pc, s.empty, EmptyGate, p, k);
    } else if s.pc[p].CIdle? {
      GateAfterWait(s.pc, s.full, FullGate, p, k);
    } else {
      GateAfterWait(s.pc, s.mutex, MutexGate, p, k);
    }
  }

  lemma SignalKeepsGates(s: State, p: int, c: char)
    requires Gates(s) && Enabled(s, p) && |s.buffer| > 0
    requires s.pc[p].PInserted? || s.pc[p].CRemoved? || s.pc[p].PLeft? || s.pc[p].CLeft?
    ensures Gates(Step(s, p, c))
  {
    var k := Step(s, p, c).pc[p];
    GatesStay(s, p, k);
    if s.pc[p].CLeft? {
      GateAfterSignal(s.pc, s.empty, EmptyGate, p, k);
    } else if s.pc[p].PLeft? {
      GateAfterSignal(s.pc, s.full, FullGate, p, k);
    } else {
      GateAfterSignal(s.pc, s.mutex, MutexGate, p, k);
    }
  }

  lemma StepKeepsGates(s: State, p: int, c: char)
    requires Gates(s) && Enabled(s, p) && |s.buffer| > 0
    ensures Gates(Step(s, p, c))
  {
    match s.pc[p] {
      case PIdle | CIdle | PReserved(_) | CReserved => WaitKeepsGates(s, p, c);
      case PInserted | CRemoved(_) | PLeft | CLeft(_) => SignalKeepsGates(s, p, c);
      case _ => GatesStay(s, p, Step(s, p, c).pc[p]);
    }
  }

  lemma WaitKeepsBalance(s: State, p: int, c: char)
    requires Balance(s) && p in s.pc && |s.buffer| > 0
    requires s.pc[p].PIdle? || s.pc[p].CIdle? || s.pc[p].PReserved? || s.pc[p].CReserved?
    ensures Balance(Step(s, p, c))
  {
    CountsAfter(s.pc, p, Step(s, p, c).pc[p]);
  }

  lemma SignalKeepsBalance(s: State, p: int, c: char)
    requires Balance(s) && p in s.pc && |s.buffer| > 0
    requires s.pc[p].PInserted? || s.pc[p].CRemoved? || s.pc[p].PLeft? || s.pc[p].CLeft?
    ensures Balance(Step(s, p, c))
  {
    CountsAfter(s.pc, p, Step(s, p, c).pc[p]);
  }

  lemma MemoryKeepsBalance(s: State, p: int, c: char)
    requires Balance(s) && p in s.pc && |s.buffer| > 0 && !Calls(s.pc[p])
    ensures Balance(Step(s, p, c))
  {
    CountsAfter(s.pc, p, Step(s, p, c).pc[p]);
  }

  lemma StepKeepsBalance(s: State, p: int, c: char)
    requires Balance(s) && p in s.pc && |s.buffer| > 0
    ensures Balance(Step(s, p, c))
  {
    match s.pc[p] {
      case PIdle | CIdle | PReserved(_) | CReserved => WaitKeepsBalance(s, p, c);
      case PInserted | CRemoved(_) | PLeft | CLeft(_) => SignalKeepsBalance(s, p, c);
      case _ => MemoryKeepsBalance(s, p, c);
    }
  }

  // ---------------------------------------------------------------- every step keeps the ring

  lemma InsertKeepsRing(s: State, p: int, c: char)
    requires Inv(s) && Enabled(s, p) && s.pc[p].PLoaded?
    ensures Ring(Step(s, p, c))
  {
    RoomToInsert(s, p);
    NextIndex(|s.inserted|, |s.buffer|);
  }

  lemma RemoveKeepsRing(s: State, p: int, c: char)
    requires Inv(s) && Enabled(s, p) && s.pc[p].CLoaded?
    ensures Ring(Step(s, p, c))
  {
    ItemToRemove(s, p);
    NextIndex(|s.removed|, |s.buffer|);
  }

  /** The store of insertItem hits no unread slot. */
  lemma StoreSparesUnread(s: State, p: int)
    requires Inv(s) && Enabled(s, p) && s.pc[p].PIndexed?
    ensures s.pc[p].at < |s.buffer|
    ensures forall k :: |s.removed| <= k < |s.inserted| ==> k % |s.buffer| != s.pc[p].at
  {
    RoomToInsert(s, p);
    forall k | |s.removed| <= k < |s.inserted| ensures k % |s.buffer| != s.pc[p].at {
      SameLap(k, |s.inserted|, |s.buffer|);
    }
  }

  lemma StoreKeepsRing(s: State, p: int, c: char)
    requires Inv(s) && Enabled(s, p) && s.pc[p].PIndexed?
    ensures Ring(Step(s, p, c))
  {
    StoreSparesUnread(s, p);
    var t := Step(s, p, c);
    forall k | |t.removed| <= k < |t.inserted| ensures t.buffer[k % |t.buffer|] == t.inserted[k] {
      assert k % |s.buffer| != s.pc[p].at;
    }
  }

  lemma StepKeepsRing(s: State, p: int, c: char)
    requires Inv(s) && Enabled(s, p)
    ensures Ring(Step(s, p, c))
  {
    if s.pc[p].PLoaded? {
      InsertKeepsRing(s, p, c);
    } else if s.pc[p].CLoaded? {
      RemoveKeepsRing(s, p, c);
    } else if s.pc[p].PIndexed? {
      StoreKeepsRing(s, p, c);
    }
  }

  /** The registers of the stepping process stay truthful. */
  lemma StepKeepsOwnRegisters(s: State, p: int, c: char)
    requires Inv(s) && Enabled(s, p)
    ensures Registers(Step(s, p, c), Step(s, p, c).pc[p])
  {
    if s.pc[p].PIndexed? {
      StoreSparesUnread(s, p);
    } else if s.pc[p].CIndexed? {
      ItemToRemove(s, p);
      assert s.buffer[|s.removed| % |s.buffer|] == s.inserted[|s.removed|];
    }
  }

  /** So do those of everybody else. */
  lemma StepKeepsRegisters(s: State, p: int, c: char, q: int)
    requires Inv(s) && Enabled(s, p) && q in s.pc
    ensures Registers(Step(s, p, c), Step(s, p, c).pc[q])
  {
    if p == q {
      StepKeepsOwnRegisters(s, p, c);
    } else if In(s.pc[p], Critical) && In(s.pc[q], Critical) {
      OneInside(s, p, q);
    }
  }

  lemma StepShape(s: State, p: int, c: char)
    requires p in s.pc && |s.buffer| > 0
    ensures |Step(s, p, c).buffer| == |s.buffer| && Step(s, p, c).pc.Keys == s.pc.Keys
  {
    assert Step(s, p, c).pc == s.pc[p := Step(s, p, c).pc[p]];
  }

  lemma StepKeepsAllRegisters(s: State, p: int, c: char)
    requires Inv(s) && Enabled(s, p)
    ensures Truthful(Step(s, p, c))
  {
    var t := Step(s, p, c);
    StepShape(s, p, c);
    forall q | q in t.pc ensures Registers(t, t.pc[q]) {
      assert q in s.pc.Keys;
      StepKeepsRegisters(s, p, c, q);
    }
  }

  /** Every step of every process keeps the invariant. */
  lemma StepKeepsInv(s: State, p: int, c: char)
    requires Inv(s) && Enabled(s, p)
    ensures Inv(Step(s, p, c))
  {
    StepKeepsGates(s, p, c);
    StepKeepsBalance(s, p, c);
    StepKeepsRing(s, p, c);
    StepKeepsAllRegisters(s, p, c);
  }

  // ---------------------------------------------------------------- runs

  /** prodCons: itemMutex starts at 1, fullCount at 0, emptyCount at the buffer size. */
  ghost predicate Init(s: State, producers: set<int>, consumers: set<int>, slots: nat) {
    && producers !! consumers && NO_PID !in producers + consumers
    && s.pc == (map p | p in producers + consumers :: if p in producers then PIdle else CIdle)
    && |s.buffer| > 0
    && s.mutex == S.Create(1, slots) && s.full == S.Create(0, slots) && s.empty == S.Create(|s.buffer|, slots)
    && s.r == s.w == 0 && s.inserted == s.removed == []
  }

  lemma NobodyBusy(pc: map<int, Pc>, z: Zone)
    requires forall p :: p in pc ==> pc[p] == PIdle || pc[p] == CIdle
    ensures At(pc, z) == {}
  {
    forall p | p in pc ensures !In(pc[p], z) {
    }
  }

  lemma InitGates(s: State, producers: set<int>, consumers: set<int>, slots: nat)
    requires Init(s, producers, consumers, slots) && |producers| + |consumers| <= slots
    ensures Gates(s)
  {
    S.CreateIsValid(1, slots);
    S.CreateIsValid(0, slots);
    S.CreateIsValid(|s.buffer|, slots);
    assert s.pc.Keys == producers + consumers;
    assert |producers + consumers| == |producers| + |consumers|;
  }

  lemma InitBalance(s: State, producers: set<int>, consumers: set<int>, slots: nat)
    requires Init(s, producers, consumers, slots)
    ensures Balance(s)
  {
    assert forall p :: p in s.pc ==> s.pc[p] == PIdle || s.pc[p] == CIdle;
    NobodyBusy(s.pc, Critical);
    NobodyBusy(s.pc, TookEmpty);
    NobodyBusy(s.pc, OwesEmpty);
    NobodyBusy(s.pc, TookFull);
    NobodyBusy(s.pc, OwesFull);
  }

  lemma InitInv(s: State, producers: set<int>, consumers: set<int>, slots: nat)
    requires Init(s, producers, consumers, slots) && |producers| + |consumers| <= slots
    ensures Inv(s)
  {
    InitGates(s, producers, consumers, slots);
    InitBalance(s, producers, consumers, slots);
  }

  /** An interleaving: which process steps, and the item it makes if it is idle. */
  ghost predicate Legal(s: State, run: seq<(int, char)>)
    decreases |run|
  {
    |s.buffer| > 0 &&
    (run == [] || (Enabled(s, run[0].0) && Legal(Step(s, run[0].0, run[0].1), run[1..])))
  }

  ghost function Run(s: State, run: seq<(int, char)>): State
    requires Legal(s, run)
    decreases |run|
  {
    if run == [] then s else Run(Step(s, run[0].0, run[0].1), run[1..])
  }

  lemma {:induction false} RunKeepsInv(s: State, run: seq<(int, char)>)
    requires Inv(s) && Legal(s, run)
    ensures Inv(Run(s, run)) && |Run(s, run).buffer| == |s.buffer| && Run(s, run).pc.Keys == s.pc.Keys
    decreases |run|
  {
    if run != [] {
      StepShape(s, run[0].0, run[0].1);
      StepKeepsInv(s, run[0].0, run[0].1);
      RunKeepsInv(Step(s, run[0].0, run[0].1), run[1..]);
    }
  }

  // ---------------------------------------------------------------- no deadlock

  predicate ProducerAt(k: Pc) {
    k.PIdle? || k.PReserved? || k.PEntered? || k.PIndexed? || k.PStored? || k.PLoaded? || k.PInserted? || k.PLeft?
  }

  lemma StepKeepsRole(s: State, q: int, c: char, p: int)
    requires q in s.pc && p in s.pc && |s.buffer| > 0
    ensures p in Step(s, q, c).pc && (ProducerAt(Step(s, q, c).pc[p]) <==> ProducerAt(s.pc[p]))
  {
    assert Step(s, q, c).pc == s.pc[q := Step(s, q, c).pc[q]];
  }

  lemma {:induction false} RunKeepsRoles(s: State, run: seq<(int, char)>, p: int)
    requires Legal(s, run) && p in s.pc
    ensures p in Run(s, run).pc && (ProducerAt(Run(s, run).pc[p]) <==> ProducerAt(s.pc[p]))
    decreases |run|
  {
    if run != [] {
      StepKeepsRole(s, run[0].0, run[0].1, p);
      RunKeepsRoles(Step(s, run[0].0, run[0].1), run[1..], p);
    }
  }

  /** Somebody in the critical section can move. */
  lemma InsideMoves(s: State)
    requires Accounts(s) && At(s.pc, Critical) != {}
    ensures exists p :: Enabled(s, p)
  {
    var c := At(s.pc, Critical);
    assert |c| > 0;
    Pigeonhole(c, Waiters(s.mutex.queue));
    var p :| p in c && p !in Waiters(s.mutex.queue);
    assert Enabled(s, p);
  }

  /** Processes that hold a unit of the semaphore or owe one to the other are counted once. */
  lemma TakersCounted(pc: map<int, Pc>, took: Zone, owes: Zone)
    requires (took == TookEmpty && owes == OwesEmpty) || (took == TookFull && owes == OwesFull)
    ensures |At(pc, took) + At(pc, owes)| == |At(pc, took)| + |At(pc, owes)|
  {
    forall p | p in At(pc, took) ensures p !in At(pc, owes) {
      assert In(pc[p], took) && !In(pc[p], owes);
    }
  }

  /** With nobody inside, a taker that is not parked at the gate is parked nowhere. */
  lemma TakerEnabled(s: State, gate: S.SemState, took: Zone, owes: Zone, p: int)
    requires Gates(s) && At(s.pc, Critical) == {} && p in s.pc && p !in Waiters(gate.queue)
    requires (gate == s.empty && took == TookEmpty && owes == OwesEmpty)
             || (gate == s.full && took == TookFull && owes == OwesFull)
    requires In(s.pc[p], took) || In(s.pc[p], owes)
    ensures Enabled(s, p)
  {
    assert p !in At(s.pc, Critical);
  }

  /** With nobody inside and more units taken than waiters at the gate of a
      semaphore, one of the takers can move. */
  lemma TakerMoves(s: State, gate: S.SemState, took: Zone, owes: Zone)
    requires Gates(s) && At(s.pc, Critical) == {}
    requires (gate == s.empty && took == TookEmpty && owes == OwesEmpty)
             || (gate == s.full && took == TookFull && owes == OwesFull)
    requires |At(s.pc, took)| + |At(s.pc, owes)| > |Waiters(gate.queue)|
    ensures exists p :: Enabled(s, p)
  {
    var c := At(s.pc, took) + At(s.pc, owes);
    TakersCounted(s.pc, took, owes);
    Pigeonhole(c, Waiters(gate.queue));
    var p :| p in c && p !in Waiters(gate.queue);
    TakerEnabled(s, gate, took, owes, p);
  }

  /** With a producer and a consumer around, some process can always move. */
  lemma SomebodyMoves(s: State, a: int, b: int)
    requires Inv(s) && a in s.pc && b in s.pc && ProducerAt(s.pc[a]) && !ProducerAt(s.pc[b])
    ensures exists p :: Enabled(s, p)
  {
    if At(s.pc, Critical) != {} {
      InsideMoves(s);
    } else if !Blocked(s, a) {
      assert Enabled(s, a);
    } else if !Blocked(s, b) {
      assert Enabled(s, b);
    } else {
      assert a !in At(s.pc, Critical) && b !in At(s.pc, Critical);
      assert a in Waiters(s.empty.queue) && b in Waiters(s.full.queue);
      assert s.empty.value < 0 && s.full.value < 0;
      if |s.inserted| - |s.removed| < |s.buffer| {
        TakerMoves(s, s.empty, TookEmpty, OwesEmpty);
      } else {
        TakerMoves(s, s.full, TookFull, OwesFull);
      }
    }
  }

  /** No run with at least one producer and one consumer reaches a deadlock. */
  lemma NoDeadlock(s: State, producers: set<int>, consumers: set<int>, slots: nat, run: seq<(int, char)>)
    requires Init(s, producers, consumers, slots) && |producers| + |consumers| <= slots
    requires producers != {} && consumers != {} && Legal(s, run)
    ensures exists p :: Enabled(Run(s, run), p)
  {
    InitInv(s, producers, consumers, slots);
    RunKeepsInv(s, run);
    SetMember(producers);
    SetMember(consumers);
    var a :| a in producers;
    var b :| b in consumers;
    RunKeepsRoles(s, run, a);
    RunKeepsRoles(s, run, b);
    SomebodyMoves(Run(s, run), a, b);
  }

  /** What a run that starts in s may look like in z: what was removed is a prefix of what was
      inserted, the buffer holds between 0 and its size items and they are the rest of what was
      inserted, and no wait of any process loses its caller. */
  ghost predicate Outcome(s: State, z: State) {
    && z.removed <= z.inserted
    && 0 <= |z.inserted| - |z.removed| <= |s.buffer| == |z.buffer|
    && (forall k :: |z.removed| <= k < |z.inserted| ==> z.buffer[k % |z.buffer|] == z.inserted[k])
    && (forall p :: Enabled(z, p) ==>
          && S.Wait(z.empty, p).1 != S.Lost && S.Wait(z.full, p).1 != S.Lost && S.Wait(z.mutex, p).1 != S.Lost)
  }

  /** Under every interleaving of any producers and consumers that fit in the wait slots. */
  lemma BoundedBufferIsFifo(s: State, producers: set<int>, consumers: set<int>, slots: nat, run: seq<(int, char)>)
    requires Init(s, producers, consumers, slots) && |producers| + |consumers| <= slots
    requires Legal(s, run)
    ensures Outcome(s, Run(s, run))
  {
    InitInv(s, producers, consumers, slots);
    RunKeepsInv(s, run);
    InvOutcome(s, Run(s, run));
  }

  lemma InvOutcome(s: State, z: State)
    requires Inv(z) && |z.buffer| == |s.buffer|
    ensures Outcome(s, z)
  {
    forall p | Enabled(z, p)
      ensures S.Wait(z.empty, p).1 != S.Lost && S.Wait(z.full, p).1 != S.Lost && S.Wait(z.mutex, p).1 != S.Lost
    {
      SlotLeft(z.pc, z.mutex, MutexGate, p);
      SlotLeft(z.pc, z.full, FullGate, p);
      SlotLeft(z.pc, z.empty, EmptyGate, p);
    }
  }

  /** The instance of the program: a 50-slot buffer, at most 10 producers and 10
      consumers, 20 wait slots. */
  lemma DummyProgram(s: State, producers: set<int>, consumers: set<int>, run: seq<(int, char)>)
    requires Init(s, producers, consumers, MAX_BLOCKED_QUEUE_SIZE) && |s.buffer| == 50
    requires |producers| <= 10 && |consumers| <= 10 && Legal(s, run)
    ensures Outcome(s, Run(s, run)) && |Run(s, run).inserted| - |Run(s, run).removed| <= 50
  {
    BoundedBufferIsFifo(s, producers, consumers, MAX_BLOCKED_QUEUE_SIZE, run);
  }

  // ---------------------------------------------------------------- the two procedures, run alone

  /** The shared buffer with its two procedures and the histories they leave. */
  class SharedBuffer {
    const buffer: array<char>
    var r: nat
    var w: nat
    ghost var inserted: seq<char>
    ghost var removed: seq<char>

    ghost predicate Valid()
      reads this, buffer
    {
      Holds(buffer[..], r, w, inserted, removed)
    }

    constructor (bufferSize: nat)
      requires bufferSize > 0
      ensures Valid() && fresh(buffer) && buffer.Length == bufferSize && r == w == 0 && inserted == removed == []
    {
      buffer := new char[bufferSize];
      r, w := 0, 0;
      inserted, removed := [], [];
    }

    method InsertItem(c: char)
      requires Valid() && |inserted| - |removed| < buffer.Length
      modifies `w, `inserted, buffer
      ensures Valid() && inserted == old(inserted) + [c]
      ensures buffer[..] == old(buffer[..])[old(w) := c] && w == (old(w) + 1) % buffer.Length
    {
      forall k | |removed| <= k < |inserted| ensures k % buffer.Length != w {
        SameLap(k, |inserted|, buffer.Length);
      }
      NextIndex(|inserted|, buffer.Length);
      buffer[w] := c;
      w := (w + 1) % buffer.Length;
      inserted := inserted + [c];
    }

    method RemoveItem() returns (result: char)
      requires Valid() && |removed| < |inserted|
      modifies `r, `removed
      ensures Valid() && result == inserted[|old(removed)|] && removed == old(removed) + [result]
      ensures r == (old(r) + 1) % buffer.Length
    {
      assert buffer[|removed| % buffer.Length] == inserted[|removed|];
      NextIndex(|removed|, buffer.Length);
      result := buffer[r];
      r := (r + 1) % buffer.Length;
      removed := removed + [result];
    }
  }

  /** The four accesses of one insertItem without interruption. */
  lemma InsertAlone(s: State, p: int, c: char)
    requires p in s.pc && s.pc[p].PEntered? && |s.buffer| > 0 && s.w < |s.buffer|
    ensures var t := Step(Step(Step(Step(s, p, c), p, c), p, c), p, c);
            t.buffer == s.buffer[s.w := s.pc[p].item] && t.w == (s.w + 1) % |s.buffer|
            && t.inserted == s.inserted + [s.pc[p].item] && t.pc[p] == PInserted
  {
    var t1 := Step(s, p, c);
    assert t1.pc[p] == PIndexed(s.pc[p].item, s.w);
    var t2 := Step(t1, p, c);
    assert t2.pc[p] == PStored(s.pc[p].item);
  }

  /** The four accesses of one removeItem without interruption. */
  lemma RemoveAlone(s: State, p: int, c: char)
    requires p in s.pc && s.pc[p].CEntered? && |s.buffer| > 0 && s.r < |s.buffer|
    ensures var t := Step(Step(Step(Step(s, p, c), p, c), p, c), p, c);
            && t.r == (s.r + 1) % |s.buffer| && t.removed == s.removed + [s.buffer[s.r]]
            && t.pc[p] == CRemoved(s.buffer[s.r])
  {
    var t1 := Step(s, p, c);
    assert t1.pc[p] == CIndexed(s.r);
    var t2 := Step(t1, p, c);
    assert t2.pc[p] == CFetched(s.buffer[s.r]);
  }
}
