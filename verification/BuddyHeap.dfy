/** The array form of the buddy allocator: node i of the page tree is entry i - 1 of
    `occupied`, its children are nodes 2i and 2i + 1. */
module BuddyHeap {
  import opened Basics
  import opened BuddyTree
  import opened Modular
  import R = BuddyRuns

  const PAGE_SIZE := 4096
  const PAGES_LOG := 10

  // ---------------------------------------------------------------- the index macros

  function Parent(i: nat): nat { i / 2 }
  function LChild(i: nat): nat { 2 * i }
  function RChild(i: nat): nat { 2 * i + 1 }
  function Sibling(i: nat): int { if i % 2 == 1 then i - 1 else i + 1 }

  /** Node n is node a or below it. */
  predicate Under(a: nat, n: nat)
    decreases n
  {
    n == a || (n > a && Under(a, n / 2))
  }

  lemma {:induction false} UnderParent(a: nat, n: nat)
    requires a >= 2 && Under(a, n)
    ensures Under(a / 2, n)
    decreases n
  {
    if n > a {
      UnderParent(a, n / 2);
    }
  }

  lemma {:induction false} UnderOneChild(a: nat, n: nat)
    requires a >= 1
    ensures !(Under(2 * a, n) && Under(2 * a + 1, n))
    decreases n
  {
    if n > 2 * a + 1 {
      UnderOneChild(a, n / 2);
    }
  }

  lemma {:induction false} UnderTransitive(a: nat, b: nat, n: nat)
    requires Under(a, b) && Under(b, n)
    ensures Under(a, n)
    decreases n
  {
    if n > b {
      UnderTransitive(a, b, n / 2);
    }
  }

  /** First and last leaf below node i of height h. */
  function FirstLeaf(i: nat, h: nat): nat
    decreases h
  {
    if h == 0 then i else FirstLeaf(LChild(i), h - 1)
  }

  function LastLeaf(i: nat, h: nat): nat
    decreases h
  {
    if h == 0 then i else LastLeaf(RChild(i), h - 1)
  }

  lemma {:induction false} LeafRange(i: nat, h: nat)
    ensures FirstLeaf(i, h) == i * Pow2(h) && LastLeaf(i, h) == (i + 1) * Pow2(h) - 1
    ensures i <= FirstLeaf(i, h) <= LastLeaf(i, h) == FirstLeaf(i, h) + Pow2(h) - 1
    decreases h
  {
    if h > 0 {
      LeafRange(2 * i, h - 1);
      LeafRange(2 * i + 1, h - 1);
      Twice(i, Pow2(h - 1));
    }
  }

  lemma NodeBeforeLeaves(i: nat, h: nat)
    ensures i <= LastLeaf(i, h)
  {
    LeafRange(i, h);
  }

  lemma Twice(i: nat, p: nat)
    ensures (2 * i) * p == i * (2 * p) && (2 * i + 2) * p == (i + 1) * (2 * p) && (2 * i + 1) * p == i * (2 * p) + p
  {
  }

  /** The two halves of the leaves of a node. */
  lemma LeafHalves(i: nat, h: nat)
    requires h > 0
    ensures FirstLeaf(RChild(i), h - 1) == FirstLeaf(i, h) + Pow2(h - 1)
    ensures LastLeaf(LChild(i), h - 1) == FirstLeaf(i, h) + Pow2(h - 1) - 1
    ensures LastLeaf(LChild(i), h - 1) < LastLeaf(i, h) == FirstLeaf(i, h) + Pow2(h) - 1
  {
    LeafRange(i, h);
    LeafRange(2 * i, h - 1);
    LeafRange(2 * i + 1, h - 1);
    Twice(i, Pow2(h - 1));
  }

  /** The level of a node; the root has level 1. */
  function Level(i: nat): nat
    requires i > 0
  {
    if i == 1 then 1 else 1 + Level(i / 2)
  }

  lemma LevelOfChildren(i: nat)
    requires i > 0
    ensures Level(LChild(i)) == Level(i) + 1 && Level(RChild(i)) == Level(i) + 1
  {
  }

  lemma {:induction false} LevelRange(i: nat, l: nat)
    requires 0 < l && Pow2(l - 1) <= i < Pow2(l)
    ensures Level(i) == l
    decreases l
  {
    if l > 1 {
      LevelRange(i / 2, l - 1);
    }
  }

  // ---------------------------------------------------------------- the tree in the array

  function Get(occ: seq<Status>, i: nat): Status {
    if 1 <= i <= |occ| then occ[i - 1] else EMPTY
  }

  function TreeOf(occ: seq<Status>, live: set<nat>, i: nat, h: nat): (t: Tree)
    ensures Shape(t, h)
    decreases h
  {
    if h == 0 then Leaf(Get(occ, i), i in live)
    else Node(Get(occ, i), i in live, TreeOf(occ, live, LChild(i), h - 1), TreeOf(occ, live, RChild(i), h - 1))
  }

  ghost predicate SameAt(occ: seq<Status>, live: set<nat>, occ': seq<Status>, live': set<nat>, n: nat) {
    Get(occ, n) == Get(occ', n) && (n in live <==> n in live')
  }

  /** A subtree depends on its own nodes only. */
  lemma {:induction false} TreeOfFrame(occ: seq<Status>, live: set<nat>, occ': seq<Status>, live': set<nat>, i: nat,
      h: nat)
    requires i >= 1
    requires forall n :: Under(i, n) ==> SameAt(occ, live, occ', live', n)
    ensures TreeOf(occ, live, i, h) == TreeOf(occ', live', i, h)
    decreases h
  {
    assert SameAt(occ, live, occ', live', i);
    if h > 0 {
      forall n | Under(2 * i, n) ensures SameAt(occ, live, occ', live', n) {
        UnderParent(2 * i, n);
      }
      forall n | Under(2 * i + 1, n) ensures SameAt(occ, live, occ', live', n) {
        UnderParent(2 * i + 1, n);
      }
      TreeOfFrame(occ, live, occ', live', 2 * i, h - 1);
      TreeOfFrame(occ, live, occ', live', 2 * i + 1, h - 1);
    }
  }

  // ---------------------------------------------------------------- the walk up

  /** freeUpRecursive from a node up to `top`. */
  function FixUp(occ: seq<Status>, i: nat, top: nat): (r: seq<Status>)
    requires 1 <= top && Under(top, i)
    ensures |r| == |occ|
    decreases i
  {
    if i == top then occ
    else
      var p := Parent(i);
      FixUp(if p <= |occ| then occ[p - 1 := Fix(Get(occ, p), Get(occ, Sibling(i)))] else occ, p, top)
  }

  /** The walk up to a node, then one more step. */
  lemma {:induction false} FixUpOneMore(occ: seq<Status>, i: nat, c: nat)
    requires c >= 2 && Under(c, i) && c / 2 <= |occ|
    ensures Under(c / 2, i)
    ensures var o := FixUp(occ, i, c);
            FixUp(occ, i, c / 2) == o[c / 2 - 1 := Fix(Get(o, c / 2), Get(o, Sibling(c)))]
    decreases i
  {
    UnderParent(c, i);
    if i > c {
      var p := Parent(i);
      FixUpOneMore(if p <= |occ| then occ[p - 1 := Fix(Get(occ, p), Get(occ, Sibling(i)))] else occ, p, c);
    }
  }

  /** The walk up to a node changes only nodes below it or itself. */
  lemma {:induction false} FixUpFrame(occ: seq<Status>, i: nat, top: nat, n: nat)
    requires 1 <= top && Under(top, i) && !Under(top, n)
    ensures Get(FixUp(occ, i, top), n) == Get(occ, n)
    decreases i
  {
    if i > top {
      var p := Parent(i);
      FixUpFrame(if p <= |occ| then occ[p - 1 := Fix(Get(occ, p), Get(occ, Sibling(i)))] else occ, p, top, n);
    }
  }

  /** Node x and its ancestors. */
  function Ancestors(x: nat): (s: set<nat>)
    ensures forall n :: n in s <==> 1 <= n && Under(n, x)
    decreases x
  {
    if x == 0 then {} else if x == 1 then {1} else {x} + Ancestors(x / 2)
  }

  // ---------------------------------------------------------------- the walk up is the release of the tree

  /** The entries after deallocPage has emptied leaf x and walked up to `top`. */
  function Walked(occ: seq<Status>, x: nat, top: nat): (r: seq<Status>)
    requires 1 <= top && Under(top, x) && 1 <= x <= |occ|
    ensures |r| == |occ|
  {
    FixUp(occ[x - 1 := EMPTY], x, top)
  }

  /** One more step of the walk writes the parent and nothing else. */
  lemma WalkStep(occ: seq<Status>, x: nat, c: nat)
    requires c >= 2 && Under(c, x) && c / 2 <= |occ| && 1 <= x <= |occ|
    ensures Under(c / 2, x)
    ensures forall n :: n != c / 2 ==> Get(Walked(occ, x, c / 2), n) == Get(Walked(occ, x, c), n)
    ensures Get(Walked(occ, x, c / 2), c / 2) == Fix(Get(occ, c / 2), Get(occ, Sibling(c)))
  {
    FixUpOneMore(occ[x - 1 := EMPTY], x, c);
    FixUpFrame(occ[x - 1 := EMPTY], x, c, c / 2);
    UnderOneChild(c / 2, Sibling(c));
    FixUpFrame(occ[x - 1 := EMPTY], x, c, Sibling(c));
  }

  /** Nodes below one child keep what they had while the walk goes up to the other. */
  lemma SiblingKept(occ: seq<Status>, live: set<nat>, x: nat, c: nat, d: nat, n: nat)
    requires c >= 2 && d == Sibling(c) && Under(c, x) && Under(d, n) && 1 <= x <= |occ|
    ensures SameAt(Walked(occ, x, c), live - Ancestors(x), occ, live, n)
  {
    SidesApart(x, c, d, n);
    FixUpFrame(occ[x - 1 := EMPTY], x, c, n);
  }

  /** Nodes below the two children of a node. */
  lemma SidesApart(x: nat, c: nat, d: nat, n: nat)
    requires c >= 2 && d == Sibling(c) && Under(c, x) && Under(d, n)
    ensures !Under(c, n) && !Under(n, x) && n != x
  {
    UnderOneChild(c / 2, n);
    UnderOneChild(c / 2, x);
    if Under(n, x) {
      UnderTransitive(d, n, x);
    }
  }

  lemma NearSide(occ: seq<Status>, live: set<nat>, x: nat, c: nat, h: nat)
    requires c >= 2 && Under(c, x) && c / 2 <= |occ| && 1 <= x <= |occ|
    ensures Under(c / 2, x)
    ensures TreeOf(Walked(occ, x, c / 2), live, c, h) == TreeOf(Walked(occ, x, c), live, c, h)
  {
    WalkStep(occ, x, c);
    TreeOfFrame(Walked(occ, x, c / 2), live, Walked(occ, x, c), live, c, h);
  }

  lemma FarSide(occ: seq<Status>, live: set<nat>, x: nat, c: nat, d: nat, h: nat)
    requires c >= 2 && d == Sibling(c) && Under(c, x) && c / 2 <= |occ| && 1 <= x <= |occ|
    ensures Under(c / 2, x)
    ensures TreeOf(Walked(occ, x, c / 2), live - Ancestors(x), d, h) == TreeOf(occ, live, d, h)
  {
    WalkStep(occ, x, c);
    var final, after := Walked(occ, x, c / 2), live - Ancestors(x);
    forall n | Under(d, n) ensures SameAt(final, after, occ, live, n) {
      SiblingKept(occ, live, x, c, d, n);
      assert n != c / 2;
    }
    TreeOfFrame(final, after, occ, live, d, h);
  }

  /** The parent of two children, c and its sibling. */
  function Join(st: Status, c: nat, below: Tree, sibling: Tree): Tree {
    if c % 2 == 0 then Node(st, false, below, sibling) else Node(st, false, sibling, below)
  }

  /** One level: the tree at the parent after the walk, from the trees at its children. */
  lemma WalkOneLevel(occ: seq<Status>, live: set<nat>, x: nat, c: nat, h: nat, below: Tree, sibling: Tree)
    requires c >= 2 && Under(c, x) && c / 2 <= |occ| && 1 <= x <= |occ|
    requires sibling == TreeOf(occ, live, Sibling(c), h)
    requires below == TreeOf(Walked(occ, x, c), live - Ancestors(x), c, h)
    ensures Under(c / 2, x)
    ensures TreeOf(Walked(occ, x, c / 2), live - Ancestors(x), c / 2, h + 1)
            == Join(Fix(Get(occ, c / 2), sibling.st), c, below, sibling)
  {
    WalkStep(occ, x, c);
    NearSide(occ, live - Ancestors(x), x, c, h);
    FarSide(occ, live, x, c, Sibling(c), h);
    assert c / 2 in Ancestors(x);
    RootOf(occ, live, Sibling(c), h);
    ChildrenOf(Walked(occ, x, c / 2), live - Ancestors(x), c / 2, h);
  }

  lemma RootOf(occ: seq<Status>, live: set<nat>, i: nat, h: nat)
    ensures TreeOf(occ, live, i, h).st == Get(occ, i)
  {
  }

  lemma ChildrenOf(occ: seq<Status>, live: set<nat>, i: nat, h: nat)
    ensures TreeOf(occ, live, i, h + 1)
            == Node(Get(occ, i), i in live, TreeOf(occ, live, 2 * i, h), TreeOf(occ, live, 2 * i + 1, h))
  {
  }

  /** One level of Dealloc: page q of node i is page p of its child c. */
  lemma DeallocOneLevel(occ: seq<Status>, live: set<nat>, i: nat, c: nat, h: nat, q: nat, p: nat)
    requires p < Pow2(h) && q < Pow2(h + 1)
    requires if q < Pow2(h) then c == 2 * i && p == q else c == 2 * i + 1 && p == q - Pow2(h)
    ensures Dealloc(TreeOf(occ, live, i, h + 1), h + 1, q) ==
            Join(Fix(Get(occ, i), TreeOf(occ, live, Sibling(c), h).st), c,
                 Dealloc(TreeOf(occ, live, c, h), h, p), TreeOf(occ, live, Sibling(c), h))
  {
    ChildrenOf(occ, live, i, h);
  }

  /** The induction step of WalkIsDealloc for page q of the parent and p of child c. */
  lemma WalkUpFrom(occ: seq<Status>, live: set<nat>, x: nat, top: nat, c: nat, k: nat, q: nat, p: nat)
    requires 1 <= top <= |occ| && 1 <= x <= |occ| && Under(c, x) && p < Pow2(k) && q < Pow2(k + 1)
    requires if q < Pow2(k) then c == 2 * top && p == q else c == 2 * top + 1 && p == q - Pow2(k)
    requires TreeOf(Walked(occ, x, c), live - Ancestors(x), c, k) == Dealloc(TreeOf(occ, live, c, k), k, p)
    ensures Under(top, x)
    ensures TreeOf(Walked(occ, x, top), live - Ancestors(x), top, k + 1)
            == Dealloc(TreeOf(occ, live, top, k + 1), k + 1, q)
  {
    assert top == c / 2;
    var below, sibling := Dealloc(TreeOf(occ, live, c, k), k, p), TreeOf(occ, live, Sibling(c), k);
    WalkOneLevel(occ, live, x, c, k, below, sibling);
    DeallocOneLevel(occ, live, top, c, k, q, p);
  }

  /** deallocPage in the array is Dealloc on the tree. */
  lemma {:induction false} WalkIsDealloc(occ: seq<Status>, live: set<nat>, x: nat, top: nat, h: nat)
    requires 1 <= top && FirstLeaf(top, h) <= x <= LastLeaf(top, h) <= |occ|
    ensures Under(top, x) && x - FirstLeaf(top, h) < Pow2(h)
    ensures TreeOf(Walked(occ, x, top), live - Ancestors(x), top, h)
            == Dealloc(TreeOf(occ, live, top, h), h, x - FirstLeaf(top, h))
    decreases h
  {
    LeafRange(top, h);
    if h > 0 {
      LeafHalves(top, h);
      var q, k := x - FirstLeaf(top, h), h - 1;
      var c := if q < Pow2(k) then LChild(top) else RChild(top);
      WalkIsDealloc(occ, live, x, c, k);
      WalkUpFrom(occ, live, x, top, c, k, q, x - FirstLeaf(c, k));
    } else {
      assert x in Ancestors(x);
    }
  }

  // ---------------------------------------------------------------- changes confined to a subtree

  ghost predicate Outside(occ: seq<Status>, live: set<nat>, occ': seq<Status>, live': set<nat>, i: nat) {
    |occ| == |occ'| && forall n :: !Under(i, n) ==> SameAt(occ, live, occ', live', n)
  }

  /** A change below one child leaves the tree of the other and what is outside the parent. */
  lemma ChildChange(occ: seq<Status>, live: set<nat>, occ': seq<Status>, live': set<nat>, c: nat, h: nat)
    requires c >= 2 && Outside(occ, live, occ', live', c)
    ensures TreeOf(occ', live', Sibling(c), h) == TreeOf(occ, live, Sibling(c), h)
    ensures Outside(occ, live, occ', live', c / 2) && SameAt(occ, live, occ', live', c / 2)
  {
    forall n | Under(Sibling(c), n) ensures SameAt(occ', live', occ, live, n) {
      UnderOneChild(c / 2, n);
      assert SameAt(occ, live, occ', live', n);
    }
    TreeOfFrame(occ', live', occ, live, Sibling(c), h);
    forall n | !Under(c / 2, n) ensures SameAt(occ, live, occ', live', n) {
      if Under(c, n) {
        UnderParent(c, n);
      }
    }
    assert !Under(c, c / 2);
  }

  lemma RightChange(occ: seq<Status>, live: set<nat>, occ': seq<Status>, live': set<nat>, i: nat, h: nat)
    requires i >= 1 && Outside(occ, live, occ', live', 2 * i + 1)
    ensures TreeOf(occ', live', 2 * i, h) == TreeOf(occ, live, 2 * i, h)
    ensures Outside(occ, live, occ', live', i) && SameAt(occ, live, occ', live', i)
  {
    var c := 2 * i + 1;
    assert c / 2 == i && Sibling(c) == 2 * i;
    ChildChange(occ, live, occ', live', c, h);
  }

  lemma OutsideTransitive(occ: seq<Status>, live: set<nat>, occ': seq<Status>, live': set<nat>, occ'': seq<Status>,
      live'': set<nat>, i: nat)
    requires Outside(occ, live, occ', live', i) && Outside(occ', live', occ'', live'', i)
    ensures Outside(occ, live, occ'', live'', i)
  {
    forall n | !Under(i, n) ensures SameAt(occ, live, occ'', live'', n) {
      assert SameAt(occ, live, occ', live', n) && SameAt(occ', live', occ'', live'', n);
    }
  }

  /** Writing the entry of a node changes the root of its tree only. */
  lemma RootChange(occ: seq<Status>, live: set<nat>, i: nat, h: nat, st: Status, live': set<nat>)
    requires 1 <= i <= |occ| && (live' == live || live' == live + {i})
    ensures TreeOf(occ[i - 1 := st], live', i, h) == TreeOf(occ, live, i, h).(st := st, live := i in live')
    ensures Outside(occ, live, occ[i - 1 := st], live', i)
  {
    var occ' := occ[i - 1 := st];
    if h > 0 {
      forall n | Under(2 * i, n) ensures SameAt(occ', live', occ, live, n) {
      }
      forall n | Under(2 * i + 1, n) ensures SameAt(occ', live', occ, live, n) {
      }
      TreeOfFrame(occ', live', occ, live, 2 * i, h - 1);
      TreeOfFrame(occ', live', occ, live, 2 * i + 1, h - 1);
    }
  }

  // ---------------------------------------------------------------- one level of the search

  /** The subtree at i has been searched and nothing outside it has changed. */
  ghost predicate Searched(occ: seq<Status>, live: set<nat>, occ': seq<Status>, live': set<nat>, i: nat, h: nat,
      k: nat)
  {
    && k <= h && Outside(occ, live, occ', live', i)
    && TreeOf(occ', live', i, h) == Search(TreeOf(occ, live, i, h), h, k).0
  }

  function Found(occ: seq<Status>, live: set<nat>, i: nat, h: nat, k: nat): Option<nat>
    requires k <= h
  {
    Search(TreeOf(occ, live, i, h), h, k).1
  }

  lemma FoundInLeft(occ: seq<Status>, live: set<nat>, occ': seq<Status>, live': set<nat>, i: nat, h: nat, k: nat)
    requires 1 <= i <= |occ| && Get(occ, i) != BUDDY_FULL && Searched(occ, live, occ', live', 2 * i, h, k)
    requires Found(occ, live, 2 * i, h, k).Some?
    ensures Searched(occ, live, occ'[i - 1 := PARTIALLY_FULL], live', i, h + 1, k)
    ensures Found(occ, live, i, h + 1, k) == Found(occ, live, 2 * i, h, k)
  {
    ChildChange(occ, live, occ', live', 2 * i, h);
    RootChange(occ', live', i, h + 1, PARTIALLY_FULL, live');
    OutsideTransitive(occ, live, occ', live', occ'[i - 1 := PARTIALLY_FULL], live', i);
    ChildrenOf(occ, live, i, h);
    ChildrenOf(occ', live', i, h);
  }

  /** A failed search changes nothing the tree can see. */
  lemma NothingInLeft(occ: seq<Status>, live: set<nat>, occ': seq<Status>, live': set<nat>, i: nat, h: nat, k: nat)
    requires 1 <= i <= |occ| && Searched(occ, live, occ', live', 2 * i, h, k) && Found(occ, live, 2 * i, h, k).None?
    ensures TreeOf(occ', live', i, h + 1) == TreeOf(occ, live, i, h + 1)
    ensures Outside(occ, live, occ', live', i) && SameAt(occ, live, occ', live', i)
  {
    ChildChange(occ, live, occ', live', 2 * i, h);
    SearchFindsLowest(TreeOf(occ, live, 2 * i, h), h, k);
    ChildrenOf(occ, live, i, h);
    ChildrenOf(occ', live', i, h);
  }

  lemma NothingAgain(occ: seq<Status>, live: set<nat>, occ': seq<Status>, live': set<nat>, i: nat, h: nat, k: nat)
    requires k <= h && Found(occ, live, 2 * i, h, k).None?
    requires TreeOf(occ', live', i, h + 1) == TreeOf(occ, live, i, h + 1)
    ensures Found(occ', live', 2 * i, h, k).None?
  {
    ChildrenOf(occ, live, i, h);
    ChildrenOf(occ', live', i, h);
  }

  /** What the second half of the search does when the left child has nothing. */
  lemma FoundInRight(occ: seq<Status>, live: set<nat>, occ': seq<Status>, live': set<nat>, i: nat, h: nat, k: nat,
      st: Status)
    requires 1 <= i <= |occ| && Get(occ, i) != BUDDY_FULL && Searched(occ, live, occ', live', 2 * i + 1, h, k)
    requires Found(occ, live, 2 * i, h, k).None? && Found(occ, live, 2 * i + 1, h, k).Some?
    requires st == if Get(occ', 2 * i + 1) == BUDDY_FULL then BUDDY_FULL else Get(occ', i)
    ensures Searched(occ, live, occ'[i - 1 := st], live', i, h + 1, k)
    ensures Found(occ, live, i, h + 1, k) == Some(Pow2(h) + Found(occ, live, 2 * i + 1, h, k).value)
  {
    RightChange(occ, live, occ', live', i, h);
    OutsideWithRoot(occ, live, occ', live', i, h, st);
    TreeFoundInRight(occ, live, occ', live', i, h, k, st);
  }

  /** Writing the status of the root as well changes nothing outside. */
  lemma OutsideWithRoot(occ: seq<Status>, live: set<nat>, occ': seq<Status>, live': set<nat>, i: nat, h: nat,
      st: Status)
    requires 1 <= i <= |occ'| && Outside(occ, live, occ', live', i)
    ensures Outside(occ, live, occ'[i - 1 := st], live', i)
  {
    RootChange(occ', live', i, h + 1, st, live');
    OutsideTransitive(occ, live, occ', live', occ'[i - 1 := st], live', i);
  }

  lemma TreeFoundInRight(occ: seq<Status>, live: set<nat>, occ': seq<Status>, live': set<nat>, i: nat, h: nat, k: nat,
      st: Status)
    requires 1 <= i <= |occ| && |occ| == |occ'| && k <= h && Get(occ, i) != BUDDY_FULL
             && SameAt(occ, live, occ', live', i)
    requires Found(occ, live, 2 * i, h, k).None? && Found(occ, live, 2 * i + 1, h, k).Some?
    requires TreeOf(occ', live', 2 * i, h) == TreeOf(occ, live, 2 * i, h)
    requires TreeOf(occ', live', 2 * i + 1, h) == Search(TreeOf(occ, live, 2 * i + 1, h), h, k).0
    requires st == if Get(occ', 2 * i + 1) == BUDDY_FULL then BUDDY_FULL else Get(occ', i)
    ensures TreeOf(occ'[i - 1 := st], live', i, h + 1) == Search(TreeOf(occ, live, i, h + 1), h + 1, k).0
    ensures Found(occ, live, i, h + 1, k) == Some(Pow2(h) + Found(occ, live, 2 * i + 1, h, k).value)
  {
    RootChange(occ', live', i, h + 1, st, live');
    ChildrenOf(occ, live, i, h);
    ChildrenOf(occ', live', i, h);
    RootOf(occ', live', 2 * i + 1, h);
  }

  lemma FoundInNeither(occ: seq<Status>, live: set<nat>, occ': seq<Status>, live': set<nat>, i: nat, h: nat, k: nat)
    requires 1 <= i <= |occ| && Get(occ, i) != BUDDY_FULL && Searched(occ, live, occ', live', 2 * i + 1, h, k)
    requires Found(occ, live, 2 * i, h, k).None? && Found(occ, live, 2 * i + 1, h, k).None?
    ensures Searched(occ, live, occ', live', i, h + 1, k) && Found(occ, live, i, h + 1, k) == None
  {
    ChildChange(occ, live, occ', live', 2 * i + 1, h);
    SearchFindsLowest(TreeOf(occ, live, 2 * i + 1, h), h, k);
    ChildrenOf(occ, live, i, h);
    ChildrenOf(occ', live', i, h);
  }

  lemma SearchedAfter(occ: seq<Status>, live: set<nat>, occ': seq<Status>, live': set<nat>, occ'': seq<Status>,
      live'': set<nat>, i: nat, h: nat, k: nat)
    requires Outside(occ, live, occ', live', i) && TreeOf(occ', live', i, h) == TreeOf(occ, live, i, h)
    requires Searched(occ', live', occ'', live'', i, h, k)
    ensures Searched(occ, live, occ'', live'', i, h, k)
  {
    OutsideTransitive(occ, live, occ', live', occ'', live'', i);
  }

  lemma ExactShare(page: nat, p: nat, m: nat, e: nat)
    requires m > 0
    ensures page * (p * m) / m == page * p
    ensures page * p * e == page * ((m + e) * p - p * m)
  {
    assert page * (p * m) == (page * p) * m;
    ExactDivision(page * p, m);
    assert (m + e) * p == p * m + p * e;
    assert page * (p * e) == page * p * e;
  }

  lemma ExactDivision(a: nat, m: nat)
    requires m > 0
    ensures a * m / m == a
  {
    DivModUnique(a * m, a, 0, m);
  }

  lemma {:induction false} Pow2Order(a: nat, b: nat)
    requires Pow2(a) < 2 * Pow2(b)
    ensures a <= b
    decreases b
  {
    if a > 0 {
      if b > 0 {
        Pow2Order(a - 1, b - 1);
      }
    }
  }

  lemma {:induction false} EmptyArrayIsFresh(occ: seq<Status>, i: nat, h: nat)
    requires forall j :: 0 <= j < |occ| ==> occ[j] == EMPTY
    ensures TreeOf(occ, {}, i, h) == Fresh(h)
    decreases h
  {
    if h > 0 {
      EmptyArrayIsFresh(occ, 2 * i, h - 1);
      EmptyArrayIsFresh(occ, 2 * i + 1, h - 1);
    }
  }

  /** The same for a page counted from the first leaf. */
  lemma PageWalk(occ: seq<Status>, live: set<nat>, leaf: nat, top: nat, h: nat, page: nat)
    requires 1 <= top && page < Pow2(h) && leaf == FirstLeaf(top, h) + page && LastLeaf(top, h) <= |occ|
    ensures 1 <= leaf <= |occ| && Under(top, leaf)
    ensures TreeOf(Walked(occ, leaf, top), live - Ancestors(leaf), top, h)
            == Dealloc(TreeOf(occ, live, top, h), h, page)
  {
    LeafRange(top, h);
    WalkIsDealloc(occ, live, leaf, top, h);
  }

  // ---------------------------------------------------------------- the object

  class Allocator {
    const height: nat
    const baseMemory: nat
    const occupied: array<Status>
    const base: array<int>
    var heapLevel: nat
    ghost var live: set<nat>

    /** Address of page n of the region. */
    ghost function Address(n: int): int
    {
      baseMemory + PAGE_SIZE * n
    }

    /** The arrays cover a tree of the given height, and `base` holds the address of
        the first page of every node. */
    ghost predicate Layout()
      reads this`heapLevel, base
    {
      && baseMemory > 0 && heapLevel == height + 1
      && occupied.Length == base.Length == LastLeaf(1, height)
      && forall i :: 1 <= i <= base.Length ==> BaseAt(i)
    }

    ghost predicate BaseAt(i: nat)
      requires 1 <= i <= base.Length
      reads this`heapLevel, base
    {
      Level(i) <= heapLevel && base[i - 1] == Address(FirstLeaf(i, heapLevel - Level(i)) - Pow2(height))
    }

    /** The page tree. */
    ghost function Tree(): (t: Tree)
      reads this, occupied
      ensures Shape(t, height)
    {
      TreeOf(occupied[..], live, 1, height)
    }

    /** Node `index` of height h lies in the arrays. */
    ghost predicate InHeap(index: nat, h: nat)
      reads this`heapLevel
    {
      && 1 <= index && Level(index) + h == heapLevel
      && LastLeaf(index, h) <= occupied.Length && Pow2(height) <= FirstLeaf(index, h)
    }

    lemma ChildrenInHeap(index: nat, h: nat)
      requires InHeap(index, h) && h > 0
      ensures InHeap(LChild(index), h - 1) && InHeap(RChild(index), h - 1)
    {
      LeafHalves(index, h);
      LevelOfChildren(index);
    }

    /** The answer of the search as an address; 0 is NULL. */
    ghost function PageOf(found: Option<nat>, index: nat, h: nat): int
    {
      match found
      case None => 0
      case Some(o) => Address(FirstLeaf(index, h) - Pow2(height) + o)
    }

    constructor (height: nat, baseMemory: nat)
      requires baseMemory > 0
      ensures Layout() && Tree() == Fresh(height) && this.height == height && this.baseMemory == baseMemory
      ensures fresh(occupied) && fresh(base)
    {
      this.height, this.baseMemory := height, baseMemory;
      occupied := new Status[2 * Pow2(height) - 1];
      base := new int[2 * Pow2(height) - 1];
      heapLevel, live := 0, {};
      new;
      CreateHeap();
    }

    /** createHeap: all entries EMPTY, and the address of every node from its level and
        its position in it. */
    method CreateHeap()
      requires baseMemory > 0 && occupied.Length == base.Length == 2 * Pow2(height) - 1
      modifies this, occupied, base
      ensures Layout() && Tree() == Fresh(height)
    {
      var level := FillNodes();
      heapLevel, live := level, {};
      LeafRange(1, height);
      forall j | 1 <= j <= base.Length ensures BaseAt(j) {
        assert Placed(j);
      }
      EmptyArrayIsFresh(occupied[..], 1, height);
    }

    /** The loop of createHeap. */
    method FillNodes() returns (level: nat)
      requires occupied.Length == base.Length == 2 * Pow2(height) - 1
      modifies occupied, base
      ensures level == height + 1 && (forall j :: 0 <= j < occupied.Length ==> occupied[j] == EMPTY)
      ensures forall j :: 1 <= j <= base.Length ==> Placed(j)
    {
      level := 1;
      var i, currentElementsInLevel, maxElementsInLevel := 0, 0, 1;
      while i < base.Length
        invariant i <= base.Length && level >= 1 && maxElementsInLevel == Pow2(level - 1)
        invariant currentElementsInLevel <= maxElementsInLevel && (i > 0 ==> currentElementsInLevel > 0)
        invariant i + 1 == maxElementsInLevel + currentElementsInLevel
        invariant forall j :: 0 <= j < i ==> occupied[j] == EMPTY
        invariant forall j :: 1 <= j <= i ==> Placed(j)
      {
        if maxElementsInLevel == currentElementsInLevel {
          currentElementsInLevel := 0;
          maxElementsInLevel := maxElementsInLevel * 2;
          level := level + 1;
        }
        Pow2Order(level - 1, height);
        LevelRange(i + 1, level);
        occupied[i] := EMPTY;
        PlaceNode(i, maxElementsInLevel, currentElementsInLevel, level);
        i := i + 1;
        currentElementsInLevel := currentElementsInLevel + 1;
      }
      Pow2Order(level - 1, height);
      Pow2Order(height, level - 1);
    }

    method PlaceNode(i: nat, maxElementsInLevel: nat, currentElementsInLevel: nat, ghost level: nat)
      requires i < base.Length && 1 <= level <= height + 1 && Level(i + 1) == level
      requires maxElementsInLevel == Pow2(level - 1) && i + 1 == maxElementsInLevel + currentElementsInLevel
      requires forall j :: 1 <= j <= i ==> Placed(j)
      modifies base
      ensures forall j :: 1 <= j <= i + 1 ==> Placed(j)
    {
      var address := GetBaseMemoryWithIndex(maxElementsInLevel, currentElementsInLevel, level);
      base[i] := address;
      forall j | 1 <= j <= i + 1 ensures Placed(j) {
        if j <= i {
          assert old(Placed(j));
        }
      }
    }

    /** The base address of node j is right for a heap of this height. */
    ghost predicate Placed(j: nat)
      requires 1 <= j <= base.Length
      reads base
    {
      Level(j) <= height + 1 && base[j - 1] == Address(FirstLeaf(j, height + 1 - Level(j)) - Pow2(height))
    }

    /** getBaseMemoryWithIndex for element `elementNumber` of its level. */
    method GetBaseMemoryWithIndex(maxElementsInLevel: nat, elementNumber: nat, ghost level: nat) returns (address: int)
      requires 1 <= level <= height + 1 && maxElementsInLevel == Pow2(level - 1)
      ensures address == Address(FirstLeaf(maxElementsInLevel + elementNumber, height + 1 - level) - Pow2(height))
    {
      ghost var h := height + 1 - level;
      Pow2Splits(height, level - 1);
      LeafRange(maxElementsInLevel + elementNumber, h);
      ExactShare(PAGE_SIZE, Pow2(h), maxElementsInLevel, elementNumber);
      var memoryPortion := PAGE_SIZE * Pow2(height) / maxElementsInLevel;
      address := memoryPortion * elementNumber + baseMemory;
    }

    /** getNextPageRecursive: the pruned depth-first search, which marks what it finds. */
    method GetNextPageRecursive(index: nat, currentLevel: nat, level: nat) returns (page: int)
      requires Layout() && currentLevel <= level <= heapLevel && InHeap(index, heapLevel - currentLevel)
      modifies occupied, this`live
      ensures var h, k := heapLevel - currentLevel, heapLevel - level;
              && Searched(old(occupied[..]), old(live), occupied[..], live, index, h, k)
              && page == PageOf(Found(old(occupied[..]), old(live), index, h, k), index, h)
      decreases heapLevel - currentLevel
    {
      ghost var h, k := heapLevel - currentLevel, heapLevel - level;
      NodeBeforeLeaves(index, h);
      if occupied[index - 1] == BUDDY_FULL {
        return 0;
      }
      if currentLevel == level {
        if occupied[index - 1] == PARTIALLY_FULL {
          return 0;
        }
        assert BaseAt(index);
        page := base[index - 1];
        RootChange(occupied[..], live, index, h, BUDDY_FULL, live + {index});
        SetStatus(index, BUDDY_FULL);
        live := live + {index};
        return;
      }
      page := SearchChildren(index, currentLevel, level);
    }

    method SetStatus(index: nat, st: Status)
      requires 1 <= index <= occupied.Length
      modifies occupied
      ensures occupied[..] == old(occupied[..])[index - 1 := st]
    {
      occupied[index - 1] := st;
    }

    /** Addresses of pages found in a child, seen from the parent. */
    lemma PageOfChild(index: nat, h: nat, o: nat)
      requires InHeap(index, h + 1) && baseMemory > 0
      ensures 0 < PageOf(Some(o), LChild(index), h) == PageOf(Some(o), index, h + 1)
      ensures 0 < PageOf(Some(o), RChild(index), h) == PageOf(Some(Pow2(h) + o), index, h + 1)
    {
      LeafHalves(index, h + 1);
    }

    /** The part of getNextPageRecursive above the requested level. */
    method SearchChildren(index: nat, currentLevel: nat, level: nat) returns (page: int)
      requires Layout() && currentLevel < level <= heapLevel && InHeap(index, heapLevel - currentLevel)
      requires index <= occupied.Length && occupied[index - 1] != BUDDY_FULL
      modifies occupied, this`live
      ensures var h, k := heapLevel - currentLevel, heapLevel - level;
              && Searched(old(occupied[..]), old(live), occupied[..], live, index, h, k)
              && page == PageOf(Found(old(occupied[..]), old(live), index, h, k), index, h)
      decreases heapLevel - currentLevel, 2
    {
      ghost var h, k, occ0, live0 := heapLevel - currentLevel - 1, heapLevel - level, occupied[..], live;
      var lchild := SearchLeft(index, currentLevel, level);
      if lchild == 0 {
        page := SearchOn(index, currentLevel, level, occ0, live0);
      } else {
        FoundInLeft(occ0, live0, occupied[..], live, index, h, k);
        SetStatus(index, PARTIALLY_FULL);
        page := lchild;
      }
    }

    /** The first half: the left child. */
    method SearchLeft(index: nat, currentLevel: nat, level: nat) returns (lchild: int)
      requires Layout() && currentLevel < level <= heapLevel && InHeap(index, heapLevel - currentLevel)
      modifies occupied, this`live
      ensures var h, k := heapLevel - currentLevel, heapLevel - level;
              var inLeft := Found(old(occupied[..]), old(live), LChild(index), h - 1, k);
              && Searched(old(occupied[..]), old(live), occupied[..], live, LChild(index), h - 1, k)
              && (lchild == 0 <==> inLeft.None?) && lchild == PageOf(inLeft, index, h)
      decreases heapLevel - currentLevel, 1
    {
      ghost var h, k := heapLevel - currentLevel - 1, heapLevel - level;
      ChildrenInHeap(index, h + 1);
      ghost var inLeft := Found(occupied[..], live, LChild(index), h, k);
      PageOfChild(index, h, if inLeft.Some? then inLeft.value else 0);
      lchild := GetNextPageRecursive(LChild(index), currentLevel + 1, level);
    }

    /** The rest of the search when the left child of the heap at entry had nothing. */
    method SearchOn(index: nat, currentLevel: nat, level: nat, ghost occ0: seq<Status>, ghost live0: set<nat>)
        returns (page: int)
      requires Layout() && currentLevel < level <= heapLevel && InHeap(index, heapLevel - currentLevel)
      requires index <= occupied.Length == |occ0| && Get(occ0, index) != BUDDY_FULL
      requires Searched(occ0, live0, occupied[..], live, LChild(index), heapLevel - currentLevel - 1, heapLevel - level)
      requires Found(occ0, live0, LChild(index), heapLevel - currentLevel - 1, heapLevel - level).None?
      modifies occupied, this`live
      ensures var h, k := heapLevel - currentLevel, heapLevel - level;
              && Searched(occ0, live0, occupied[..], live, index, h, k)
              && page == PageOf(Found(occ0, live0, index, h, k), index, h)
      decreases heapLevel - currentLevel, 1
    {
      ghost var h, k, occ1, live1 := heapLevel - currentLevel - 1, heapLevel - level, occupied[..], live;
      NothingInLeft(occ0, live0, occ1, live1, index, h, k);
      NothingAgain(occ0, live0, occ1, live1, index, h, k);
      page := SearchRight(index, currentLevel, level);
      SearchedAfter(occ0, live0, occ1, live1, occupied[..], live, index, h + 1, k);
    }

    /** The second half: the left child had nothing. */
    method SearchRight(index: nat, currentLevel: nat, level: nat) returns (page: int)
      requires Layout() && currentLevel < level <= heapLevel && InHeap(index, heapLevel - currentLevel)
      requires index <= occupied.Length && occupied[index - 1] != BUDDY_FULL
      requires Found(occupied[..], live, LChild(index), heapLevel - currentLevel - 1, heapLevel - level).None?
      modifies occupied, this`live
      ensures var h, k := heapLevel - currentLevel, heapLevel - level;
              && Searched(old(occupied[..]), old(live), occupied[..], live, index, h, k)
              && page == PageOf(Found(old(occupied[..]), old(live), index, h, k), index, h)
      decreases heapLevel - currentLevel, 0
    {
      ghost var h, k, occ0, live0 := heapLevel - currentLevel - 1, heapLevel - level, occupied[..], live;
      ChildrenInHeap(index, h + 1);
      NodeBeforeLeaves(RChild(index), h);
      page := GetNextPageRecursive(RChild(index), currentLevel + 1, level);
      ghost var inRight := Found(occ0, live0, RChild(index), h, k);
      PageOfChild(index, h, if inRight.Some? then inRight.value else 0);
      if page == 0 {
        FoundInNeither(occ0, live0, occupied[..], live, index, h, k);
        return;
      }
      ghost var st := if occupied[RChild(index) - 1] == BUDDY_FULL then BUDDY_FULL else occupied[index - 1];
      FoundInRight(occ0, live0, occupied[..], live, index, h, k, st);
      if occupied[RChild(index) - 1] == BUDDY_FULL {
        SetStatus(index, BUDDY_FULL);
      } else {
        assert occupied[..][index - 1 := st] == occupied[..];
      }
    }

    /** getLevel: halve the page count, rounding up, until it is 1. */
    method GetLevel(pages: nat) returns (level: int)
      requires pages > 0
      ensures level == heapLevel - R.CeilLog2(pages)
    {
      var i, rta := 0, pages;
      while rta != 1
        invariant rta > 0 && i + R.CeilLog2(rta) == R.CeilLog2(pages)
        decreases rta
      {
        if rta % 2 == 1 {
          rta := rta / 2 + 1;
        } else {
          rta := rta / 2;
        }
        i := i + 1;
      }
      level := heapLevel - i;
    }

    /** allocPage; NULL is 0. */
    method AllocPage(pages: nat) returns (page: int)
      requires Layout()
      modifies occupied, this`live
      ensures var (t, found) := R.Alloc(old(Tree()), height, pages);
              Tree() == t && page == match found { case None => 0 case Some(o) => baseMemory + 4096 * o }
    {
      LeafRange(1, height);
      if pages == 0 || pages > (occupied.Length + 1) / 2 {
        return 0;
      }
      R.SizeFitsHeight(pages, height);
      var level := GetLevel(pages);
      if level > heapLevel {
        return 0;
      }
      page := GetNextPageRecursive(1, 1, level);
    }

    /** freeUpRecursive. */
    method FreeUpRecursive(index: nat)
      requires 1 <= index <= occupied.Length && occupied.Length % 2 == 1
      modifies occupied
      ensures Under(1, index) && occupied[..] == FixUp(old(occupied[..]), index, 1)
      decreases index
    {
      UnderRoot(index);
      if index == 1 {
        return;
      }
      var parent, sibling := occupied[Parent(index) - 1], occupied[Sibling(index) - 1];
      ghost var occ := occupied[..];
      if parent == BUDDY_FULL && sibling == EMPTY {
        SetStatus(Parent(index), EMPTY);
      } else if parent == BUDDY_FULL && sibling == BUDDY_FULL {
        SetStatus(Parent(index), PARTIALLY_FULL);
      } else if parent == PARTIALLY_FULL && sibling == EMPTY {
        SetStatus(Parent(index), EMPTY);
      }
      assert occupied[..] == occ[Parent(index) - 1 := Fix(parent, sibling)];
      FreeUpRecursive(Parent(index));
    }

    /** deallocPage of any address in the region. */
    method DeallocPage(page: int) returns (ans: int)
      requires Layout() && baseMemory <= page < Address(Pow2(height))
      modifies occupied, this`live
      ensures ans == 0 && (page - baseMemory) / PAGE_SIZE < Pow2(height)
      ensures Tree() == Dealloc(old(Tree()), height, (page - baseMemory) / PAGE_SIZE)
    {
      LeafRange(1, height);
      PageInRegion(page);
      var index := (page - baseMemory) / PAGE_SIZE;
      ReleaseLeaf(index + occupied.Length / 2 + 1, index);
      ans := 0;
    }

    lemma PageInRegion(page: int)
      requires baseMemory <= page < Address(Pow2(height))
      ensures 0 <= (page - baseMemory) / PAGE_SIZE < Pow2(height)
    {
    }

    /** Empty a leaf and walk up. */
    method ReleaseLeaf(leaf: nat, ghost page: nat)
      requires Layout() && page < Pow2(height) && leaf == Pow2(height) + page
      modifies occupied, this`live
      ensures Tree() == Dealloc(old(Tree()), height, page)
    {
      ghost var occ, before := occupied[..], live;
      LeafRange(1, height);
      EmptyLeaf(leaf);
      live := live - Ancestors(leaf);
      PageWalk(occ, before, leaf, 1, height, page);
    }

    /** The array side of it. */
    method EmptyLeaf(leaf: nat)
      requires 1 <= leaf <= occupied.Length && occupied.Length % 2 == 1
      modifies occupied
      ensures Under(1, leaf) && occupied[..] == Walked(old(occupied[..]), leaf, 1)
    {
      SetStatus(leaf, EMPTY);
      FreeUpRecursive(leaf);
    }
  }

  /** The heap of the kernel has height 10: 1024 pages, 4 MiB in all, in a tree of 2047 nodes. */
  lemma KernelPages(height: nat)
    requires height == PAGES_LOG
    ensures Pow2(height) == 1024 && PAGE_SIZE * Pow2(height) == 0x40_0000 && LastLeaf(1, height) == 2047
  {
    LeafRange(1, height);
    Pow2Splits(height, 5);
    assert Pow2(5) == 32;
  }

  lemma {:induction false} UnderRoot(i: nat)
    requires i >= 1
    ensures Under(1, i)
  {
    if i > 1 {
      UnderRoot(i / 2);
    }
  }
}
