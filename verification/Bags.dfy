/** Small facts about finite sets and bags. */
module Bags {

  /** The first n natural numbers. */
  ghost function Upto(n: nat): (c: set<int>)
    ensures |c| == n
    ensures forall x :: x in c <==> 0 <= x < n
  {
    if n == 0 then {} else Upto(n - 1) + {n - 1}
  }

  lemma EmptySet(c: set<int>)
    requires forall x :: x !in c
    ensures c == {}
  {
    assert forall x :: x in c ==> x in {};
  }

  lemma SetMember(c: set<int>)
    requires c != {}
    ensures exists x :: x in c
  {
    if forall x :: x !in c {
      EmptySet(c);
    }
  }

  lemma NoMembers(m: multiset<int>)
    requires forall x :: x !in m
    ensures m == multiset{}
  {
    forall x ensures m[x] == multiset{}[x] {
      assert x !in m;
    }
  }

  lemma DifferenceSize<T>(a: multiset<T>, b: multiset<T>)
    requires b <= a
    ensures |a - b| == |a| - |b|
  {
    assert a == (a - b) + b;
  }

  /** A bag of size one is the singleton of any of its members. */
  lemma SingletonBag<T>(h: multiset<T>, p: T)
    requires |h| == 1 && p in h
    ensures h == multiset{p}
  {
    assert h == multiset{p} + (h - multiset{p});
    assert |h| == 1 + |h - multiset{p}|;
  }

  /** A bag without repetitions inside a set is no larger than the set. */
  lemma {:induction false} BagWithinSet(m: multiset<int>, c: set<int>)
    requires forall p :: p in m ==> m[p] == 1 && p in c
    ensures |m| <= |c|
    decreases |c|
  {
    if c == {} {
      NoMembers(m);
    } else {
      SetMember(c);
      var p :| p in c;
      var m' := m[p := 0];
      assert |m| <= |m'| + 1;
      BagWithinSet(m', c - {p});
    }
  }

  /** A set larger than a bag has a member outside it. */
  lemma {:induction false} Pigeonhole(c: set<int>, m: multiset<int>)
    requires |c| > |m|
    ensures exists x :: x in c && x !in m
    decreases |c|
  {
    assert c != {};
    SetMember(c);
    var p :| p in c;
    if p in m {
      assert m == m[p := 0] + multiset{p}[p := m[p]];
      Pigeonhole(c - {p}, m[p := 0]);
      var x :| x in c - {p} && x !in m[p := 0];
      assert x in c && x !in m;
    }
  }
}
