/** The page tree of the buddy allocator, as a value. Every node carries the status
    that the allocator stores and, for the statements below, whether it is a block
    that was handed out and not freed yet. */
module BuddyTree {
  import opened Basics

  datatype Status = EMPTY | PARTIALLY_FULL | BUDDY_FULL

  datatype Tree =
    | Leaf(st: Status, live: bool)
    | Node(st: Status, live: bool, left: Tree, right: Tree)

  function Pow2(k: nat): (p: nat)
    ensures p > 0
  {
    if k == 0 then 1 else 2 * Pow2(k - 1)
  }

  /** A full tree of height h, covering 2^h pages. */
  predicate Shape(t: Tree, h: nat) {
    match t
    case Leaf(_, _) => h == 0
    case Node(_, _, l, r) => h > 0 && Shape(l, h - 1) && Shape(r, h - 1)
  }

  function Fresh(h: nat): (t: Tree)
    ensures Shape(t, h)
  {
    if h == 0 then Leaf(EMPTY, false) else Node(EMPTY, false, Fresh(h - 1), Fresh(h - 1))
  }

  // ---------------------------------------------------------------- allocation

  /** getNextPageRecursive for a block of 2^k pages: the new tree and the first page
      of the block, counted from the start of the tree. */
  function Search(t: Tree, h: nat, k: nat): (Tree, Option<nat>)
    requires Shape(t, h) && k <= h
    decreases h
  {
    if t.st == BUDDY_FULL then (t, None)
    else if h == k then
      if t.st == PARTIALLY_FULL then (t, None) else (t.(st := BUDDY_FULL, live := true), Some(0))
    else
      var (l, inLeft) := Search(t.left, h - 1, k);
      if inLeft.Some? then (t.(st := PARTIALLY_FULL, left := l), inLeft)
      else
        var (r, inRight) := Search(t.right, h - 1, k);
        if inRight.None? then (t, None)
        else (t.(st := if r.st == BUDDY_FULL then BUDDY_FULL else t.st, right := r), Some(Pow2(h - 1) + inRight.value))
  }

  /** An EMPTY node of 2^k pages starts at page o and none of its ancestors is FULL. */
  predicate Available(t: Tree, h: nat, k: nat, o: nat)
    requires Shape(t, h) && k <= h
    decreases h
  {
    if h == k then o == 0 && t.st == EMPTY
    else if t.st == BUDDY_FULL then false
    else if o < Pow2(h - 1) then Available(t.left, h - 1, k, o)
    else Available(t.right, h - 1, k, o - Pow2(h - 1))
  }

  /** From every tree state the search finds the lowest available node, marks it, and
      fails exactly when there is none. */
  lemma {:induction false} SearchFindsLowest(t: Tree, h: nat, k: nat)
    requires Shape(t, h) && k <= h
    ensures var (u, found) := Search(t, h, k);
            && Shape(u, h)
            && match found
               case None => u == t && (forall o: nat :: !Available(t, h, k, o))
               case Some(o) =>
                 && o + Pow2(k) <= Pow2(h) && Available(t, h, k, o)
                 && (forall p: nat :: p < o ==> !Available(t, h, k, p))
    decreases h
  {
    if t.st != BUDDY_FULL && h > k {
      SearchFindsLowest(t.left, h - 1, k);
      SearchFindsLowest(t.right, h - 1, k);
      var (l, inLeft) := Search(t.left, h - 1, k);
      var (u, found) := Search(t, h, k);
      if found.Some? && inLeft.None? {
        forall p: nat | p < found.value ensures !Available(t, h, k, p) {
          if p >= Pow2(h - 1) {
            assert !Available(t.right, h - 1, k, p - Pow2(h - 1));
          } else {
            assert !Available(t.left, h - 1, k, p);
          }
        }
      } else if found.None? {
        forall p: nat ensures !Available(t, h, k, p) {
          if p >= Pow2(h - 1) {
            assert !Available(t.right, h - 1, k, p - Pow2(h - 1));
          } else {
            assert !Available(t.left, h - 1, k, p);
          }
        }
      }
    }
  }

  /** A block of 2^k pages starts at a multiple of its size. */
  lemma {:induction false} AvailableIsAligned(t: Tree, h: nat, k: nat, o: nat) returns (m: nat)
    requires Shape(t, h) && k <= h && Available(t, h, k, o)
    ensures o == m * Pow2(k) && o + Pow2(k) <= Pow2(h)
    decreases h
  {
    if h == k {
      m := 0;
    } else if o < Pow2(h - 1) {
      m := AvailableIsAligned(t.left, h - 1, k, o);
    } else {
      var n := AvailableIsAligned(t.right, h - 1, k, o - Pow2(h - 1));
      Pow2Splits(h - 1, k);
      m := n + Pow2(h - 1 - k);
      Distribute(n, Pow2(h - 1 - k), Pow2(k));
    }
  }

  lemma Distribute(a: int, b: int, c: int)
    ensures (a + b) * c == a * c + b * c
  {
  }

  lemma {:induction false} Pow2Splits(h: nat, k: nat)
    requires k <= h
    ensures Pow2(h) == Pow2(h - k) * Pow2(k)
    decreases h
  {
    if h > k {
      Pow2Splits(h - 1, k);
      assert Pow2(h - k) * Pow2(k) == 2 * (Pow2(h - k - 1) * Pow2(k)) by {
        assert Pow2(h - k) == 2 * Pow2(h - k - 1);
      }
    }
  }

  // ---------------------------------------------------------------- release

  /** What freeUpRecursive writes into a parent, from its own status and that of the
      sibling of the node it comes from. */
  function Fix(parent: Status, sibling: Status): Status {
    if parent == BUDDY_FULL && sibling == EMPTY then EMPTY
    else if parent == BUDDY_FULL && sibling == BUDDY_FULL then PARTIALLY_FULL
    else if parent == PARTIALLY_FULL && sibling == EMPTY then EMPTY
    else parent
  }

  /** deallocPage of page q: the leaf becomes EMPTY, then every ancestor is fixed from
      the bottom up. Whatever block covers q is no longer handed out. */
  function Dealloc(t: Tree, h: nat, q: nat): (u: Tree)
    requires Shape(t, h) && q < Pow2(h)
    ensures Shape(u, h)
    decreases h
  {
    if h == 0 then Leaf(EMPTY, false)
    else if q < Pow2(h - 1) then
      Node(Fix(t.st, t.right.st), false, Dealloc(t.left, h - 1, q), t.right)
    else
      Node(Fix(t.st, t.left.st), false, t.left, Dealloc(t.right, h - 1, q - Pow2(h - 1)))
  }

  // ---------------------------------------------------------------- the invariant

  /** Some block handed out lies at or below the node. */
  predicate Busy(t: Tree) {
    t.live || (t.Node? && (Busy(t.left) || Busy(t.right)))
  }

  /** A node is EMPTY exactly when no block lies at or below it; a block is FULL and
      has no block below it. */
  predicate Inv(t: Tree) {
    && (t.st == EMPTY <==> !Busy(t))
    && (t.live ==> t.st == BUDDY_FULL)
    && (t.Node? ==> Inv(t.left) && Inv(t.right) && (t.live ==> !Busy(t.left) && !Busy(t.right)))
  }

  lemma {:induction false} FreshInv(h: nat)
    ensures Inv(Fresh(h)) && !Busy(Fresh(h))
  {
    if h > 0 {
      FreshInv(h - 1);
    }
  }

  /** A tree without blocks in which the invariant holds is the initial tree. */
  lemma {:induction false} IdleIsFresh(t: Tree, h: nat)
    requires Shape(t, h) && Inv(t) && !Busy(t)
    ensures t == Fresh(h)
    decreases h
  {
    if h > 0 {
      IdleIsFresh(t.left, h - 1);
      IdleIsFresh(t.right, h - 1);
    }
  }

  /** An idle tree has room for a block of any size. */
  lemma {:induction false} IdleHasRoom(t: Tree, h: nat, k: nat)
    requires Shape(t, h) && k <= h && Inv(t) && !Busy(t)
    ensures Search(t, h, k).1 == Some(0)
    decreases h
  {
    if h > k {
      IdleHasRoom(t.left, h - 1, k);
    }
  }

  lemma {:induction false} SearchKeepsInv(t: Tree, h: nat, k: nat)
    requires Shape(t, h) && k <= h && Inv(t)
    ensures var (u, found) := Search(t, h, k);
            Shape(u, h) && Inv(u) && (found.Some? ==> Busy(u) && u.live == (t.live || h == k))
    decreases h
  {
    if t.st != BUDDY_FULL && h > k {
      SearchKeepsInv(t.left, h - 1, k);
      SearchKeepsInv(t.right, h - 1, k);
      if !Busy(t) {
        IdleHasRoom(t.left, h - 1, k);
      }
    }
  }

  // ---------------------------------------------------------------- when a release is safe

  /** The tree with the block that covers page q taken back, statuses untouched. */
  function Release(t: Tree, h: nat, q: nat): (u: Tree)
    requires Shape(t, h) && q < Pow2(h)
    ensures Shape(u, h)
    decreases h
  {
    if h == 0 then Leaf(t.st, false)
    else if q < Pow2(h - 1) then t.(live := false, left := Release(t.left, h - 1, q))
    else t.(live := false, right := Release(t.right, h - 1, q - Pow2(h - 1)))
  }

  /** Every node on the way to page q, below the root, that still covers another
      block has a sibling that is not EMPTY. */
  predicate PathCondition(t: Tree, h: nat, q: nat)
    requires Shape(t, h) && q < Pow2(h)
    decreases h
  {
    if h == 0 then true
    else if q < Pow2(h - 1) then
      (Busy(Release(t.left, h - 1, q)) ==> t.right.st != EMPTY) && PathCondition(t.left, h - 1, q)
    else
      (Busy(Release(t.right, h - 1, q - Pow2(h - 1))) ==> t.left.st != EMPTY)
      && PathCondition(t.right, h - 1, q - Pow2(h - 1))
  }

  /** deallocPage takes back exactly the block that Release takes back. */
  lemma {:induction false} DeallocBusy(t: Tree, h: nat, q: nat)
    requires Shape(t, h) && q < Pow2(h)
    ensures Busy(Dealloc(t, h, q)) == Busy(Release(t, h, q))
    decreases h
  {
    if h > 0 {
      if q < Pow2(h - 1) {
        DeallocBusy(t.left, h - 1, q);
      } else {
        DeallocBusy(t.right, h - 1, q - Pow2(h - 1));
      }
    }
  }

  /** Releasing in an idle subtree changes nothing below the root of it. */
  lemma {:induction false} ReleaseIdle(t: Tree, h: nat, q: nat)
    requires Shape(t, h) && q < Pow2(h) && !Busy(t)
    ensures Release(t, h, q) == t
    decreases h
  {
    if h > 0 {
      if q < Pow2(h - 1) {
        ReleaseIdle(t.left, h - 1, q);
      } else {
        ReleaseIdle(t.right, h - 1, q - Pow2(h - 1));
      }
    }
  }

  lemma {:induction false} ReleaseSmaller(t: Tree, h: nat, q: nat)
    requires Shape(t, h) && q < Pow2(h) && Busy(Release(t, h, q))
    ensures Busy(t)
    decreases h
  {
    if h > 0 {
      if q < Pow2(h - 1) {
        if Busy(Release(t.left, h - 1, q)) {
          ReleaseSmaller(t.left, h - 1, q);
        }
      } else if Busy(Release(t.right, h - 1, q - Pow2(h - 1))) {
        ReleaseSmaller(t.right, h - 1, q - Pow2(h - 1));
      }
    }
  }

  /** One level of the release: child c is on the path and c' what becomes of it, d is
      its sibling; the flags say which of them are busy. */
  lemma FixIsRightIff(st: Status, sibling: Status, live: bool, c: bool, c': bool, d: bool)
    requires (st == EMPTY <==> !(live || c || d)) && (live ==> st == BUDDY_FULL && !c && !d)
    requires (sibling == EMPTY <==> !d) && (c' ==> c)
    ensures ((Fix(st, sibling) == EMPTY) <==> !(c' || d)) <==> (c' ==> sibling != EMPTY)
  {
  }

  /** deallocPage keeps the invariant exactly when the path condition holds. */
  lemma {:induction false} DeallocKeepsInvIff(t: Tree, h: nat, q: nat)
    requires Shape(t, h) && q < Pow2(h) && Inv(t)
    ensures Inv(Dealloc(t, h, q)) <==> PathCondition(t, h, q)
    decreases h
  {
    if h > 0 {
      var inLeft := q < Pow2(h - 1);
      var (c, d, p) := if inLeft then (t.left, t.right, q) else (t.right, t.left, q - Pow2(h - 1));
      DeallocKeepsInvIff(c, h - 1, p);
      DeallocBusy(c, h - 1, p);
      if Busy(Dealloc(c, h - 1, p)) {
        ReleaseSmaller(c, h - 1, p);
      }
      FixIsRightIff(t.st, d.st, t.live, Busy(c), Busy(Dealloc(c, h - 1, p)), Busy(d));
    }
  }

  /** Without any other block the path condition holds. */
  lemma {:induction false} PathConditionWhenAlone(t: Tree, h: nat, q: nat)
    requires Shape(t, h) && q < Pow2(h) && !Busy(Release(t, h, q))
    ensures PathCondition(t, h, q)
    decreases h
  {
    if h > 0 {
      if q < Pow2(h - 1) {
        PathConditionWhenAlone(t.left, h - 1, q);
      } else {
        PathConditionWhenAlone(t.right, h - 1, q - Pow2(h - 1));
      }
    }
  }

  /** Freeing any page of the only block restores the initial, all-EMPTY heap. */
  lemma FreeingTheOnlyBlockRestoresTheHeap(t: Tree, h: nat, q: nat)
    requires Shape(t, h) && q < Pow2(h) && Inv(t) && !Busy(Release(t, h, q))
    ensures Dealloc(t, h, q) == Fresh(h)
  {
    PathConditionWhenAlone(t, h, q);
    DeallocKeepsInvIff(t, h, q);
    DeallocBusy(t, h, q);
    IdleIsFresh(Dealloc(t, h, q), h);
  }

  // ---------------------------------------------------------------- what a release makes available

  /** The node of height j above page q, and its child that does not cover q. */
  function Above(t: Tree, h: nat, q: nat, j: nat): (u: Tree)
    requires Shape(t, h) && q < Pow2(h) && j <= h
    ensures Shape(u, j)
    decreases h
  {
    if j == h then t
    else if q < Pow2(h - 1) then Above(t.left, h - 1, q, j)
    else Above(t.right, h - 1, q - Pow2(h - 1), j)
  }

  function Beside(t: Tree, h: nat, q: nat, j: nat): (u: Tree)
    requires Shape(t, h) && q < Pow2(h) && 0 < j <= h
    ensures Shape(u, j - 1)
    decreases h
  {
    if q < Pow2(h - 1) then if j == h then t.right else Beside(t.left, h - 1, q, j)
    else if j == h then t.left else Beside(t.right, h - 1, q - Pow2(h - 1), j)
  }

  /** Every status after deallocPage of page q. The leaf becomes EMPTY. A node above it is
      EMPTY if it was or if its other child is; it stays FULL exactly when the other child is
      PARTIALLY_FULL; otherwise it is PARTIALLY_FULL. Off the path nothing changes. */
  lemma {:induction false} StatusAfterDealloc(t: Tree, h: nat, q: nat, j: nat)
    requires Shape(t, h) && q < Pow2(h) && j <= h
    ensures j == 0 ==> Above(Dealloc(t, h, q), h, q, 0).st == EMPTY
    ensures j > 0 ==> Beside(Dealloc(t, h, q), h, q, j) == Beside(t, h, q, j)
    ensures j > 0 ==>
              var before, other := Above(t, h, q, j).st, Beside(t, h, q, j).st;
              var after := Above(Dealloc(t, h, q), h, q, j).st;
              && (after == EMPTY <==> before == EMPTY || other == EMPTY)
              && (after == BUDDY_FULL <==> before == BUDDY_FULL && other == PARTIALLY_FULL)
    decreases h
  {
    if j < h {
      if q < Pow2(h - 1) {
        StatusAfterDealloc(t.left, h - 1, q, j);
      } else {
        StatusAfterDealloc(t.right, h - 1, q - Pow2(h - 1), j);
      }
    }
  }

  /** A node above page q that the release leaves FULL. */
  predicate StaysFull(t: Tree, h: nat, q: nat, j: nat)
    requires Shape(t, h) && q < Pow2(h) && 0 < j <= h
  {
    Above(t, h, q, j).st == BUDDY_FULL && Beside(t, h, q, j).st == PARTIALLY_FULL
  }

  predicate NotFull(t: Tree, h: nat, q: nat, j: nat)
    requires Shape(t, h) && q < Pow2(h) && 0 < j <= h
  {
    Above(t, h, q, j).st != BUDDY_FULL
  }

  /** The first page of the node of height k that covers page q. */
  function StartOf(h: nat, q: nat, k: nat): nat
    requires q < Pow2(h) && k <= h
    decreases h
  {
    if k == h then 0
    else if q < Pow2(h - 1) then StartOf(h - 1, q, k)
    else Pow2(h - 1) + StartOf(h - 1, q - Pow2(h - 1), k)
  }

  lemma {:induction false} StartBounds(h: nat, q: nat, k: nat)
    requires q < Pow2(h) && k <= h
    ensures StartOf(h, q, k) <= q < StartOf(h, q, k) + Pow2(k) <= Pow2(h)
    decreases h
  {
    if k < h {
      if q < Pow2(h - 1) {
        StartBounds(h - 1, q, k);
      } else {
        StartBounds(h - 1, q - Pow2(h - 1), k);
      }
    }
  }

  ghost predicate NoneFull(t: Tree, h: nat, q: nat, lo: nat)
    requires Shape(t, h) && q < Pow2(h) && 0 < lo
  {
    forall j :: lo <= j <= h ==> NotFull(t, h, q, j)
  }

  /** The child of a node on the side of page q, and the page within it. */
  function Toward(t: Tree, h: nat, q: nat): (c: (Tree, nat))
    requires Shape(t, h) && q < Pow2(h) && h > 0
    ensures Shape(c.0, h - 1) && c.1 < Pow2(h - 1)
  {
    if q < Pow2(h - 1) then (t.left, q) else (t.right, q - Pow2(h - 1))
  }

  lemma NoneFullSplits(t: Tree, h: nat, q: nat, lo: nat)
    requires Shape(t, h) && q < Pow2(h) && 0 < lo <= h
    ensures NoneFull(t, h, q, lo) <==> t.st != BUDDY_FULL && NoneFull(Toward(t, h, q).0, h - 1, Toward(t, h, q).1, lo)
  {
    var g := h - 1;
    var (c, p) := Toward(t, h, q);
    assert NotFull(t, h, q, h) <==> t.st != BUDDY_FULL;
    if NoneFull(t, h, q, lo) {
      forall j | lo <= j <= g ensures NotFull(c, g, p, j) {
        assert NotFull(t, h, q, j);
      }
    }
    if t.st != BUDDY_FULL && NoneFull(c, g, p, lo) {
      forall j | lo <= j <= h ensures NotFull(t, h, q, j) {
        assert j < h ==> NotFull(c, g, p, j);
      }
    }
  }

  /** A node that covers q is available exactly when it is EMPTY and nothing above it is FULL. */
  lemma {:induction false} AvailableAbove(t: Tree, h: nat, q: nat, k: nat)
    requires Shape(t, h) && q < Pow2(h) && k <= h
    ensures Available(t, h, k, StartOf(h, q, k)) <==> Above(t, h, q, k).st == EMPTY && NoneFull(t, h, q, k + 1)
    decreases h
  {
    if k < h {
      var (c, p) := Toward(t, h, q);
      AvailableAbove(c, h - 1, p, k);
      StartBounds(h - 1, p, k);
      NoneFullSplits(t, h, q, k + 1);
    }
  }

  /** Where the path to node o, which does not cover q, leaves the path to q: the height of the
      last common node, and the start of the node inside the subtree beside the path. */
  function Fork(h: nat, q: nat, k: nat, o: nat): (nat, nat)
    requires q < Pow2(h) && k < h
    decreases h
  {
    var half := Pow2(h - 1);
    if q < half && o >= half then (h, o - half)
    else if (q >= half && o < half) || h - 1 == k then (h, o)
    else if q < half then Fork(h - 1, q, k, o)
    else Fork(h - 1, q - half, k, o - half)
  }

  lemma {:induction false} ForkInside(h: nat, q: nat, k: nat, o: nat)
    requires q < Pow2(h) && k < h
    ensures k < Fork(h, q, k, o).0 <= h
    decreases h
  {
    var half := Pow2(h - 1);
    if (q < half) == (o < half) && h - 1 > k {
      ForkInside(h - 1, if q < half then q else q - half, k, if q < half then o else o - half);
    }
  }

  /** A node that does not cover q is available exactly when it is inside the subtree beside
      the path and no common node is FULL. */
  lemma {:induction false} AvailableBeside(t: Tree, h: nat, q: nat, k: nat, o: nat)
    requires Shape(t, h) && q < Pow2(h) && k < h && (q < o || o + Pow2(k) <= q)
    ensures var (j, p) := Fork(h, q, k, o);
            && k < j <= h
            && (Available(t, h, k, o) <==> Available(Beside(t, h, q, j), j - 1, k, p) && NoneFull(t, h, q, j))
    decreases h
  {
    var half, j := Pow2(h - 1), Fork(h, q, k, o).0;
    var (c, q') := Toward(t, h, q);
    ForkInside(h, q, k, o);
    NoneFullSplits(t, h, q, j);
    if (q < half) == (o < half) && k < h - 1 {
      AvailableBeside(c, h - 1, q', k, if q < half then o else o - half);
    }
  }

  ghost predicate NoneStaysFull(t: Tree, h: nat, q: nat, lo: nat)
    requires Shape(t, h) && q < Pow2(h) && 0 < lo
  {
    forall j :: lo <= j <= h ==> !StaysFull(t, h, q, j)
  }

  lemma FullAfterDealloc(t: Tree, h: nat, q: nat, lo: nat)
    requires Shape(t, h) && q < Pow2(h) && 0 < lo
    ensures NoneFull(Dealloc(t, h, q), h, q, lo) <==> NoneStaysFull(t, h, q, lo)
  {
    forall j | lo <= j <= h ensures NotFull(Dealloc(t, h, q), h, q, j) <==> !StaysFull(t, h, q, j) {
      StatusAfterDealloc(t, h, q, j);
    }
  }

  /** The freed page can be allocated again exactly when no node above it stays FULL; and a
      larger node that covers it, when moreover the node was EMPTY or its other child is. */
  lemma FreedPageIsAvailableIff(t: Tree, h: nat, q: nat, k: nat)
    requires Shape(t, h) && q < Pow2(h) && k <= h
    ensures Available(Dealloc(t, h, q), h, k, StartOf(h, q, k)) <==>
            && (k > 0 ==> Above(t, h, q, k).st == EMPTY || Beside(t, h, q, k).st == EMPTY)
            && NoneStaysFull(t, h, q, k + 1)
  {
    AvailableAbove(Dealloc(t, h, q), h, q, k);
    StatusAfterDealloc(t, h, q, k);
    FullAfterDealloc(t, h, q, k + 1);
  }

  /** A node that does not cover the freed page is available afterwards exactly when it is in
      its subtree beside the path, and no node above both stays FULL; so none becomes unavailable. */
  lemma OtherNodesAvailableIff(t: Tree, h: nat, q: nat, k: nat, o: nat)
    requires Shape(t, h) && q < Pow2(h) && k < h && (q < o || o + Pow2(k) <= q)
    ensures var (j, p) := Fork(h, q, k, o);
            && k < j <= h
            && (Available(Dealloc(t, h, q), h, k, o) <==>
                  Available(Beside(t, h, q, j), j - 1, k, p) && NoneStaysFull(t, h, q, j))
    ensures Available(t, h, k, o) ==> Available(Dealloc(t, h, q), h, k, o)
  {
    var j := Fork(h, q, k, o).0;
    AvailableBeside(t, h, q, k, o);
    AvailableBeside(Dealloc(t, h, q), h, q, k, o);
    StatusAfterDealloc(t, h, q, j);
    FullAfterDealloc(t, h, q, j);
    if NoneFull(t, h, q, j) {
      forall i | j <= i <= h ensures !StaysFull(t, h, q, i) {
        assert NotFull(t, h, q, i);
      }
    }
  }

  // ---------------------------------------------------------------- what an allocation makes unavailable

  /** The block of 2^k pages at o is the end of the node of height j above it. */
  predicate ClosesNode(h: nat, o: nat, k: nat, j: nat)
    requires o < Pow2(h) && j <= h
  {
    StartOf(h, o, j) + Pow2(j) == o + Pow2(k)
  }

  /** Every status after a search that found block o. The block becomes FULL, and a node above
      it becomes FULL exactly when the block is the end of that node. Off the path nothing
      changes. */
  lemma {:induction false} FullAfterSearch(t: Tree, h: nat, k: nat, j: nat)
    requires Shape(t, h) && k <= h && Search(t, h, k).1.Some?
    ensures var (u, o) := (Search(t, h, k).0, Search(t, h, k).1.value);
            && Shape(u, h) && o + Pow2(k) <= Pow2(h)
            && (k <= j <= h ==> (Above(u, h, o, j).st == BUDDY_FULL <==> ClosesNode(h, o, k, j)))
            && (k < j <= h ==> Beside(u, h, o, j) == Beside(t, h, o, j) && NotFull(t, h, o, j))
    decreases h
  {
    if h > k {
      if Search(t.left, h - 1, k).1.Some? {
        FullAfterSearch(t.left, h - 1, k, if j < h then j else h - 1);
      } else {
        FullAfterSearch(t.right, h - 1, k, if j < h then j else h - 1);
      }
    }
  }

  /** From a tree with the invariant all other nodes above the block become PARTIALLY_FULL. */
  lemma {:induction false} PartialAfterSearch(t: Tree, h: nat, k: nat, j: nat)
    requires Shape(t, h) && Inv(t) && k <= j <= h && Search(t, h, k).1.Some?
    ensures var (u, o) := (Search(t, h, k).0, Search(t, h, k).1.value);
            && Shape(u, h) && o < Pow2(h)
            && Above(u, h, o, j).st == if ClosesNode(h, o, k, j) then BUDDY_FULL else PARTIALLY_FULL
    decreases h
  {
    FullAfterSearch(t, h, k, j);
    SearchKeepsInv(t, h, k);
    if j < h {
      if Search(t.left, h - 1, k).1.Some? {
        PartialAfterSearch(t.left, h - 1, k, j);
      } else {
        PartialAfterSearch(t.right, h - 1, k, j);
      }
    }
  }

  lemma {:induction false} ForkOutside(h: nat, o: nat, k: nat, i: nat, p: nat)
    requires o + Pow2(k) <= Pow2(h) && k <= h && i < h && StartOf(h, o, k) == o
    requires p < o || o + Pow2(k) <= p < Pow2(h)
    ensures k < Fork(h, o, i, p).0
    decreases h
  {
    var half := Pow2(h - 1);
    if k < h && (o < half) == (p < half) && h - 1 > i {
      var (q, r) := if o < half then (o, p) else (o - half, p - half);
      StartBounds(h - 1, q, k);
      ForkOutside(h - 1, q, k, i, r);
    }
  }

  lemma {:induction false} FoundIsStart(t: Tree, h: nat, k: nat)
    requires Shape(t, h) && k <= h && Search(t, h, k).1.Some?
    ensures var o := Search(t, h, k).1.value; o + Pow2(k) <= Pow2(h) && StartOf(h, o, k) == o
    decreases h
  {
    if h > k {
      if Search(t.left, h - 1, k).1.Some? {
        FoundIsStart(t.left, h - 1, k);
      } else {
        FoundIsStart(t.right, h - 1, k);
      }
    }
  }

  ghost predicate NoneClosed(h: nat, o: nat, k: nat, lo: nat)
    requires o < Pow2(h)
  {
    forall j :: lo <= j <= h ==> !ClosesNode(h, o, k, j)
  }

  /** The nodes above the block from height lo on were not FULL, and those become FULL that it closes. */
  lemma FullAboveSearch(t: Tree, h: nat, k: nat, lo: nat)
    requires Shape(t, h) && k <= h && Search(t, h, k).1.Some? && k < lo
    ensures var (u, o) := (Search(t, h, k).0, Search(t, h, k).1.value);
            && Shape(u, h) && o < Pow2(h) && NoneFull(t, h, o, lo)
            && (NoneFull(u, h, o, lo) <==> NoneClosed(h, o, k, lo))
  {
    var (u, o) := (Search(t, h, k).0, Search(t, h, k).1.value);
    FullAfterSearch(t, h, k, h);
    forall j | lo <= j <= h ensures NotFull(t, h, o, j) && (NotFull(u, h, o, j) <==> !ClosesNode(h, o, k, j)) {
      FullAfterSearch(t, h, k, j);
    }
  }

  /** A node apart from the block found is available afterwards exactly when it was and the
      block is not the end of any node above both. */
  lemma NodesAfterSearch(t: Tree, h: nat, k: nat, i: nat, p: nat)
    requires Shape(t, h) && k <= h && i < h && Search(t, h, k).1.Some?
    requires var o := Search(t, h, k).1.value; p + Pow2(i) <= o || o + Pow2(k) <= p < Pow2(h)
    ensures var (u, o) := (Search(t, h, k).0, Search(t, h, k).1.value);
            && Shape(u, h) && o < Pow2(h)
            && (Available(u, h, i, p) <==> Available(t, h, i, p) && NoneClosed(h, o, k, Fork(h, o, i, p).0))
  {
    var (u, o) := (Search(t, h, k).0, Search(t, h, k).1.value);
    FoundIsStart(t, h, k);
    ForkInside(h, o, i, p);
    ForkOutside(h, o, k, i, p);
    FullAboveSearch(t, h, k, Fork(h, o, i, p).0);
    FullAfterSearch(t, h, k, Fork(h, o, i, p).0);
    AvailableBeside(t, h, o, i, p);
    AvailableBeside(u, h, o, i, p);
  }
}
