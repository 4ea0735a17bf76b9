/** The table of sleeping processes that the timer interrupt walks. A process whose
    alarm is reached is removed, inside the walk, by moving the last entry into its
    place. */
module SleepTable {

  datatype Sleeper = Sleeper(pid: int, counter: int, alarm: int)

  function Aged(e: Sleeper): Sleeper { e.(counter := e.counter + 1) }

  predicate Due(e: Sleeper) { e.counter + 1 == e.alarm }

  // ---------------------------------------------------------------- one call

  /** addSleep: a full table drops the request. */
  function Add(t: seq<Sleeper>, capacity: nat, pid: int, interval: int): seq<Sleeper> {
    if |t| >= capacity then t else t + [Sleeper(pid, 0, interval)]
  }

  /** deleteSleep: the last entry takes the place of the deleted one. */
  function Delete(t: seq<Sleeper>, j: nat): (r: seq<Sleeper>)
    requires j < |t|
    ensures |r| == |t| - 1
  {
    t[j := t[|t| - 1]][..|t| - 1]
  }

  /** The walk of the timer from entry j on: the new table and the pids made READY. */
  function Walk(t: seq<Sleeper>, j: nat): (seq<Sleeper>, seq<int>)
    decreases |t| - j
  {
    if j >= |t| then (t, [])
    else
      var e := t[j];
      if Due(e) then
        var (r, woken) := Walk(Delete(t[j := Aged(e)], j), j);
        (r, [e.pid] + woken)
      else
        Walk(t[j := Aged(e)], j + 1)
  }

  // ---------------------------------------------------------------- what a tick means

  ghost function StayOne(e: Sleeper): multiset<Sleeper> {
    if Due(e) then multiset{} else multiset{Aged(e)}
  }

  ghost function WakeOne(e: Sleeper): multiset<int> {
    if Due(e) then multiset{e.pid} else multiset{}
  }

  /** The entries that keep sleeping, one tick older. */
  ghost function Stay(t: seq<Sleeper>): multiset<Sleeper> {
    if t == [] then multiset{} else StayOne(t[0]) + Stay(t[1..])
  }

  /** The pids whose alarm is reached. */
  ghost function Wake(t: seq<Sleeper>): multiset<int> {
    if t == [] then multiset{} else WakeOne(t[0]) + Wake(t[1..])
  }

  lemma Associate<T>(a: multiset<T>, b: multiset<T>, c: multiset<T>)
    ensures a + (b + c) == (a + b) + c
  {
  }

  lemma {:induction false} StaySnoc(t: seq<Sleeper>, e: Sleeper)
    ensures Stay(t + [e]) == Stay(t) + StayOne(e)
    decreases |t|
  {
    if t == [] {
      assert t + [e] == [e] && [e][1..] == [];
    } else {
      StaySnoc(t[1..], e);
      assert (t + [e])[1..] == t[1..] + [e];
      Associate(StayOne(t[0]), Stay(t[1..]), StayOne(e));
    }
  }

  lemma {:induction false} WakeSnoc(t: seq<Sleeper>, e: Sleeper)
    ensures Wake(t + [e]) == Wake(t) + WakeOne(e)
    decreases |t|
  {
    if t == [] {
      assert t + [e] == [e] && [e][1..] == [];
    } else {
      WakeSnoc(t[1..], e);
      assert (t + [e])[1..] == t[1..] + [e];
      Associate(WakeOne(t[0]), Wake(t[1..]), WakeOne(e));
    }
  }

  lemma Cons(e: Sleeper, t: seq<Sleeper>)
    ensures Stay([e] + t) == StayOne(e) + Stay(t) && Wake([e] + t) == WakeOne(e) + Wake(t)
  {
    assert ([e] + t)[1..] == t;
  }

  /** The last entry fills the hole and the others stay where they are. */
  lemma DeleteMovesLast(t: seq<Sleeper>, j: nat)
    requires j < |t|
    ensures forall i :: 0 <= i < |t| - 1 ==> Delete(t, j)[i] == if i == j then t[|t| - 1] else t[i]
    ensures multiset(Delete(t, j)) + multiset{t[j]} == multiset(t)
  {
    var n := |t| - 1;
    var moved := t[j := t[n]];
    assert moved == moved[..n] + [t[n]];
    assert multiset(moved) == multiset(t) - multiset{t[j]} + multiset{t[n]};
  }

  /** The entries left to visit after a deletion are those that were left before it. */
  lemma DeleteRest(t: seq<Sleeper>, j: nat)
    requires j < |t|
    ensures Stay(Delete(t, j)[j..]) == Stay(t[j + 1..])
    ensures Wake(Delete(t, j)[j..]) == Wake(t[j + 1..])
    ensures Delete(t, j)[..j] == t[..j]
  {
    var n := |t| - 1;
    if j < n {
      var mid := t[j + 1..n];
      assert Delete(t, j)[j..] == [t[n]] + mid;
      assert t[j + 1..] == mid + [t[n]];
      Cons(t[n], mid);
      StaySnoc(mid, t[n]);
      WakeSnoc(mid, t[n]);
    } else {
      assert Delete(t, j)[j..] == [] && t[j + 1..] == [];
    }
  }

  lemma {:induction false} WalkVisitsOnce(t: seq<Sleeper>, j: nat)
    requires j <= |t|
    ensures multiset(Walk(t, j).0) == multiset(t[..j]) + Stay(t[j..])
    ensures multiset(Walk(t, j).1) == Wake(t[j..])
    decreases |t| - j
  {
    if j == |t| {
      assert t[..j] == t;
    } else {
      var e, u := t[j], t[j := Aged(t[j])];
      assert t[j..] == [e] + t[j + 1..];
      Cons(e, t[j + 1..]);
      assert u[j + 1..] == t[j + 1..] && u[..j] == t[..j];
      if Due(e) {
        WalkVisitsOnce(Delete(u, j), j);
        DeleteRest(u, j);
      } else {
        WalkVisitsOnce(u, j + 1);
        assert u[..j + 1] == t[..j] + [Aged(e)];
      }
    }
  }

  /** Despite the deletions, a tick ages every entry once and removes and wakes
      exactly those that reach their alarm. */
  lemma TickVisitsEveryEntryOnce(t: seq<Sleeper>)
    ensures multiset(Walk(t, 0).0) == Stay(t)
    ensures multiset(Walk(t, 0).1) == Wake(t)
  {
    WalkVisitsOnce(t, 0);
    assert t[0..] == t;
  }

  // ---------------------------------------------------------------- the object

  class Timer {
    const pids: array<int>
    const counters: array<int>
    const alarms: array<int>
    var listeners: nat

    ghost predicate Valid()
      reads this
    {
      && pids.Length == counters.Length == alarms.Length && listeners <= pids.Length
      && pids != counters && pids != alarms && counters != alarms
    }

    ghost function Entry(i: nat): Sleeper
      requires Valid() && i < pids.Length
      reads this, pids, counters, alarms
    {
      Sleeper(pids[i], counters[i], alarms[i])
    }

    ghost function Table(): (t: seq<Sleeper>)
      requires Valid()
      reads this, pids, counters, alarms
      ensures |t| == listeners
    {
      seq(listeners, i requires 0 <= i < listeners reads this, pids, counters, alarms requires Valid() => Entry(i))
    }

    constructor (capacity: nat)
      ensures Valid() && Table() == [] && pids.Length == capacity
      ensures fresh(pids) && fresh(counters) && fresh(alarms)
    {
      pids := new int[capacity];
      counters := new int[capacity];
      alarms := new int[capacity];
      listeners := 0;
    }

    method AddSleep(pid: int, interval: int)
      requires Valid()
      modifies this, pids, counters, alarms
      ensures Valid() && Table() == Add(old(Table()), pids.Length, pid, interval)
    {
      if listeners >= pids.Length {
        return;
      }
      alarms[listeners] := interval;
      pids[listeners] := pid;
      counters[listeners] := 0;
      listeners := listeners + 1;
    }

    method DeleteSleep(index: nat)
      requires Valid() && index < listeners
      modifies this, pids, counters, alarms
      ensures Valid() && Table() == Delete(old(Table()), index)
    {
      alarms[index] := alarms[listeners - 1];
      pids[index] := pids[listeners - 1];
      counters[index] := counters[listeners - 1];
      listeners := listeners - 1;
    }

    method Age(index: nat)
      requires Valid() && index < listeners
      modifies counters
      ensures Valid() && Table() == old(Table())[index := Aged(old(Table())[index])]
    {
      counters[index] := counters[index] + 1;
    }

    /** The loop of timerTickHandlerC. The result lists the processes made READY. */
    method Tick() returns (woken: seq<int>)
      requires Valid()
      modifies this, pids, counters, alarms
      ensures Valid() && (Table(), woken) == Walk(old(Table()), 0)
    {
      woken := [];
      var j := 0;
      while j < listeners
        invariant Valid() && j <= listeners
        invariant Walk(Table(), j).0 == Walk(old(Table()), 0).0
        invariant woken + Walk(Table(), j).1 == Walk(old(Table()), 0).1
        decreases listeners - j
      {
        ghost var t, before := Table(), woken;
        Age(j);
        assert Table()[j] == Entry(j) == Aged(t[j]);
        if counters[j] == alarms[j] {
          woken := woken + [pids[j]];
          DeleteSleep(j);
          assert before + ([t[j].pid] + Walk(Table(), j).1) == woken + Walk(Table(), j).1;
        } else {
          j := j + 1;
        }
      }
      assert woken + [] == woken;
    }
  }

  // ---------------------------------------------------------------- runs

  datatype Event = TickEvent | SleepEvent(pid: int, interval: int)

  function Perform(t: seq<Sleeper>, capacity: nat, ev: Event): seq<Sleeper> {
    match ev
    case TickEvent => Walk(t, 0).0
    case SleepEvent(p, n) => Add(t, capacity, p, n)
  }

  function Ticks(evs: seq<Event>): nat {
    if evs == [] then 0 else (if evs[0].TickEvent? then 1 else 0) + Ticks(evs[1..])
  }

  function Times(n: nat, x: int): seq<int> {
    if n == 0 then [] else [x] + Times(n - 1, x)
  }

  /** The numbers of the ticks of a run that wake pid, counted from `now` + 1; a tick
      that wakes it twice is listed twice. */
  function WakeTimes(t: seq<Sleeper>, capacity: nat, evs: seq<Event>, pid: int, now: nat): seq<int>
    decreases |evs|
  {
    if evs == [] then []
    else
      var rest := Perform(t, capacity, evs[0]);
      if evs[0].TickEvent? then
        Times(multiset(Walk(t, 0).1)[pid], now + 1) + WakeTimes(rest, capacity, evs[1..], pid, now + 1)
      else
        WakeTimes(rest, capacity, evs[1..], pid, now)
  }

  /** The only entry of process pid is e. */
  ghost predicate Only(t: seq<Sleeper>, pid: int, e: Sleeper) {
    e.pid == pid && forall x: Sleeper :: x.pid == pid ==> multiset(t)[x] == if x == e then 1 else 0
  }

  /** Process pid has no entry. */
  ghost predicate Absent(t: seq<Sleeper>, pid: int) {
    forall x: Sleeper :: x.pid == pid ==> multiset(t)[x] == 0
  }

  lemma StayOneCount(e: Sleeper, x: Sleeper)
    ensures StayOne(e)[x] == if x.counter == x.alarm then 0 else multiset{e}[x.(counter := x.counter - 1)]
  {
  }

  lemma {:induction false} StayCount(t: seq<Sleeper>, x: Sleeper)
    ensures Stay(t)[x] == if x.counter == x.alarm then 0 else multiset(t)[x.(counter := x.counter - 1)]
    decreases |t|
  {
    if t != [] {
      StayCount(t[1..], x);
      StayOneCount(t[0], x);
      assert multiset(t) == multiset{t[0]} + multiset(t[1..]) by {
        assert t == [t[0]] + t[1..];
      }
    }
  }

  lemma {:induction false} AbsentIsNotWoken(t: seq<Sleeper>, pid: int)
    requires Absent(t, pid)
    ensures Wake(t)[pid] == 0
    decreases |t|
  {
    if t != [] {
      assert t == [t[0]] + t[1..];
      assert t[0].pid != pid by {
        assert t[0] in multiset(t);
      }
      AbsentIsNotWoken(t[1..], pid);
    }
  }

  lemma {:induction false} OnlyIsWokenWhenDue(t: seq<Sleeper>, pid: int, e: Sleeper)
    requires Only(t, pid, e)
    ensures Wake(t)[pid] == if Due(e) then 1 else 0
    decreases |t|
  {
    assert t != [] by {
      assert multiset(t)[e] == 1;
    }
    assert t == [t[0]] + t[1..];
    if t[0].pid == pid {
      assert t[0] in multiset(t);
      AbsentIsNotWoken(t[1..], pid);
    } else {
      OnlyIsWokenWhenDue(t[1..], pid, e);
    }
  }

  lemma TickAbsent(t: seq<Sleeper>, pid: int)
    requires Absent(t, pid)
    ensures Absent(Walk(t, 0).0, pid) && multiset(Walk(t, 0).1)[pid] == 0
  {
    TickVisitsEveryEntryOnce(t);
    AbsentIsNotWoken(t, pid);
    forall x: Sleeper | x.pid == pid ensures multiset(Walk(t, 0).0)[x] == 0 {
      StayCount(t, x);
    }
  }

  /** What one tick does to a process with a single entry. */
  lemma TickOnly(t: seq<Sleeper>, pid: int, e: Sleeper)
    requires Only(t, pid, e)
    ensures var (r, woken) := Walk(t, 0);
            if Due(e) then Absent(r, pid) && multiset(woken)[pid] == 1
            else Only(r, pid, Aged(e)) && multiset(woken)[pid] == 0
  {
    TickVisitsEveryEntryOnce(t);
    OnlyIsWokenWhenDue(t, pid, e);
    var r := Walk(t, 0).0;
    forall x: Sleeper | x.pid == pid ensures multiset(r)[x] == if !Due(e) && x == Aged(e) then 1 else 0 {
      StayCount(t, x);
    }
  }

  lemma AddOther(t: seq<Sleeper>, capacity: nat, other: int, n: int, pid: int)
    requires other != pid
    ensures forall x: Sleeper :: x.pid == pid ==> multiset(Add(t, capacity, other, n))[x] == multiset(t)[x]
  {
  }

  /** No other call of the run puts pid to sleep (a sleeping process makes no call). */
  ghost predicate Undisturbed(evs: seq<Event>, pid: int) {
    forall ev :: ev in evs && ev.SleepEvent? ==> ev.pid != pid
  }

  lemma {:induction false} AwakeStaysAwake(t: seq<Sleeper>, capacity: nat, evs: seq<Event>, pid: int, now: nat)
    requires Undisturbed(evs, pid) && Absent(t, pid)
    ensures WakeTimes(t, capacity, evs, pid, now) == []
    decreases |evs|
  {
    if evs != [] {
      var rest := Perform(t, capacity, evs[0]);
      if evs[0].TickEvent? {
        TickAbsent(t, pid);
        AwakeStaysAwake(rest, capacity, evs[1..], pid, now + 1);
      } else {
        assert evs[0] in evs;
        AddOther(t, capacity, evs[0].pid, evs[0].interval, pid);
        AwakeStaysAwake(rest, capacity, evs[1..], pid, now);
      }
    }
  }

  /** The tick, if any, at which an entry fires. */
  function Expected(e: Sleeper, ticks: nat, now: nat): seq<int> {
    if 0 < e.alarm - e.counter <= ticks then [now + (e.alarm - e.counter)] else []
  }

  lemma {:induction false} SleeperWakesOnTime(t: seq<Sleeper>, capacity: nat, evs: seq<Event>, pid: int, now: nat,
      e: Sleeper)
    requires Undisturbed(evs, pid) && Only(t, pid, e)
    ensures WakeTimes(t, capacity, evs, pid, now) == Expected(e, Ticks(evs), now)
    decreases |evs|
  {
    if evs != [] {
      var rest := Perform(t, capacity, evs[0]);
      if evs[0].TickEvent? {
        TickOnly(t, pid, e);
        if Due(e) {
          AwakeStaysAwake(rest, capacity, evs[1..], pid, now + 1);
          assert Times(1, now + 1) == [now + 1] + Times(0, now + 1);
        } else {
          SleeperWakesOnTime(rest, capacity, evs[1..], pid, now + 1, Aged(e));
        }
      } else {
        assert evs[0] in evs;
        AddOther(t, capacity, evs[0].pid, evs[0].interval, pid);
        SleeperWakesOnTime(rest, capacity, evs[1..], pid, now, e);
      }
    }
  }

  /** A process that asks to sleep for n ticks is made READY by tick n and by no
      other, provided the table has a free entry and n >= 1; otherwise it never is. */
  lemma SleepLastsExactly(t: seq<Sleeper>, capacity: nat, pid: int, n: int, evs: seq<Event>)
    requires Absent(t, pid) && Undisturbed(evs, pid)
    ensures WakeTimes(Add(t, capacity, pid, n), capacity, evs, pid, 0) ==
            if |t| < capacity && 1 <= n <= Ticks(evs) then [n] else []
  {
    if |t| < capacity {
      SleeperWakesOnTime(Add(t, capacity, pid, n), capacity, evs, pid, 0, Sleeper(pid, 0, n));
    } else {
      AwakeStaysAwake(t, capacity, evs, pid, 0);
    }
  }
}
