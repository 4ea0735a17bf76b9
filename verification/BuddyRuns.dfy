/** Runs of the buddy allocator: which blocks are handed out, and when they are
    disjoint. */
module BuddyRuns {
  import opened Basics
  import opened BuddyTree

  datatype Block = Block(start: nat, pages: nat)

  predicate Covers(b: Block, page: nat) { b.start <= page < b.start + b.pages }

  predicate Apart(a: Block, b: Block) { a.start + a.pages <= b.start || b.start + b.pages <= a.start }

  // ---------------------------------------------------------------- the size of a block

  /** How often getLevel halves the page count, rounding up, before it reaches 1. */
  function CeilLog2(pages: nat): (k: nat)
    requires pages > 0
  {
    if pages == 1 then 0 else 1 + CeilLog2(if pages % 2 == 1 then pages / 2 + 1 else pages / 2)
  }

  /** A request gets the smallest power of two that is large enough. */
  lemma {:induction false} BlockSize(pages: nat)
    requires pages > 0
    ensures pages <= Pow2(CeilLog2(pages)) < 2 * pages
    decreases pages
  {
    if pages > 1 {
      var half := if pages % 2 == 1 then pages / 2 + 1 else pages / 2;
      BlockSize(half);
      if pages % 2 == 1 {
        assert half > 1;
        assert Pow2(CeilLog2(half)) == 2 * Pow2(CeilLog2(half) - 1);
      }
    }
  }

  lemma {:induction false} SizeFitsHeight(pages: nat, h: nat)
    requires 0 < pages <= Pow2(h)
    ensures CeilLog2(pages) <= h
    decreases h
  {
    if pages > 1 {
      if h > 0 {
        SizeFitsHeight(if pages % 2 == 1 then pages / 2 + 1 else pages / 2, h - 1);
      }
    }
  }

  /** allocPage on a heap of 2^h pages. */
  function Alloc(t: Tree, h: nat, pages: nat): (Tree, Option<nat>)
    requires Shape(t, h)
  {
    if pages == 0 || pages > Pow2(h) then (t, None)
    else
      assert CeilLog2(pages) <= h by { SizeFitsHeight(pages, h); }
      Search(t, h, CeilLog2(pages))
  }

  /** The answer of allocPage: a block of the right size, aligned to it, inside the
      heap, the lowest available; NULL exactly for a bad count or when none is. */
  lemma AllocAnswer(t: Tree, h: nat, pages: nat)
    requires Shape(t, h)
    ensures pages == 0 || pages > Pow2(h) ==> Alloc(t, h, pages) == (t, None)
    ensures 0 < pages <= Pow2(h) ==>
              && CeilLog2(pages) <= h
              && var k := CeilLog2(pages);
                 match Alloc(t, h, pages).1
                 case None => forall o: nat :: !Available(t, h, k, o)
                 case Some(o) =>
                   && pages <= Pow2(k) < 2 * pages && (exists m: nat :: o == m * Pow2(k)) && o + Pow2(k) <= Pow2(h)
                   && Available(t, h, k, o) && (forall p: nat :: p < o ==> !Available(t, h, k, p))
  {
    if 0 < pages <= Pow2(h) {
      SizeFitsHeight(pages, h);
      BlockSize(pages);
      SearchFindsLowest(t, h, CeilLog2(pages));
      var found := Alloc(t, h, pages).1;
      if found.Some? {
        var m := AvailableIsAligned(t, h, CeilLog2(pages), found.value);
      }
    }
  }

  /** What an answered request leaves: a node apart from the block is available exactly when it
      was and the block is not the end of any node above both. */
  lemma NodesAfterAlloc(t: Tree, h: nat, pages: nat, i: nat, p: nat)
    requires Shape(t, h) && i < h && Alloc(t, h, pages).1.Some?
    requires var o := Alloc(t, h, pages).1.value; p + Pow2(i) <= o || o + Pow2(CeilLog2(pages)) <= p < Pow2(h)
    ensures var (u, o) := (Alloc(t, h, pages).0, Alloc(t, h, pages).1.value);
            && Shape(u, h) && o < Pow2(h)
            && (Available(u, h, i, p) <==>
                  Available(t, h, i, p) && NoneClosed(h, o, CeilLog2(pages), Fork(h, o, i, p).0))
  {
    SizeFitsHeight(pages, h);
    NodesAfterSearch(t, h, CeilLog2(pages), i, p);
  }

  // ---------------------------------------------------------------- the blocks in a tree

  /** The blocks handed out below a node whose first page is `from`. */
  function Live(t: Tree, h: nat, from: nat): set<Block>
    requires Shape(t, h)
    decreases h
  {
    (if t.live then {Block(from, Pow2(h))} else {}) +
    (if h == 0 then {} else Live(t.left, h - 1, from) + Live(t.right, h - 1, from + Pow2(h - 1)))
  }

  lemma {:induction false} LiveInside(t: Tree, h: nat, from: nat, b: Block)
    requires Shape(t, h) && b in Live(t, h, from)
    ensures b.pages > 0 && from <= b.start && b.start + b.pages <= from + Pow2(h)
    decreases h
  {
    if h > 0 {
      if b in Live(t.left, h - 1, from) {
        LiveInside(t.left, h - 1, from, b);
      } else if b in Live(t.right, h - 1, from + Pow2(h - 1)) {
        LiveInside(t.right, h - 1, from + Pow2(h - 1), b);
      }
    }
  }

  lemma {:induction false} LiveBusy(t: Tree, h: nat, from: nat)
    requires Shape(t, h)
    ensures Live(t, h, from) == {} <==> !Busy(t)
    decreases h
  {
    if h > 0 {
      LiveBusy(t.left, h - 1, from);
      LiveBusy(t.right, h - 1, from + Pow2(h - 1));
    }
    assert t.live ==> Block(from, Pow2(h)) in Live(t, h, from);
    assert h > 0 ==>
      && Live(t.left, h - 1, from) <= Live(t, h, from)
      && Live(t.right, h - 1, from + Pow2(h - 1)) <= Live(t, h, from);
  }

  /** Under the invariant the blocks of a tree are pairwise disjoint. */
  lemma {:induction false} LiveApart(t: Tree, h: nat, from: nat, a: Block, b: Block)
    requires Shape(t, h) && Inv(t) && a in Live(t, h, from) && b in Live(t, h, from) && a != b
    ensures Apart(a, b)
    decreases h
  {
    if h > 0 {
      var l, r := Live(t.left, h - 1, from), Live(t.right, h - 1, from + Pow2(h - 1));
      LiveBusy(t.left, h - 1, from);
      LiveBusy(t.right, h - 1, from + Pow2(h - 1));
      if a in l && b in l {
        LiveApart(t.left, h - 1, from, a, b);
      } else if a in r && b in r {
        LiveApart(t.right, h - 1, from + Pow2(h - 1), a, b);
      } else if a in l && b in r {
        LiveInside(t.left, h - 1, from, a);
        LiveInside(t.right, h - 1, from + Pow2(h - 1), b);
      } else {
        LiveInside(t.left, h - 1, from, b);
        LiveInside(t.right, h - 1, from + Pow2(h - 1), a);
      }
    }
  }

  /** A node that the search would take overlaps no block handed out. */
  lemma {:induction false} AvailableIsIdle(t: Tree, h: nat, from: nat, k: nat, o: nat, b: Block)
    requires Shape(t, h) && Inv(t) && k <= h && Available(t, h, k, o) && b in Live(t, h, from)
    ensures Apart(Block(from + o, Pow2(k)), b)
    decreases h
  {
    if h == k {
      LiveBusy(t, h, from);
    } else {
      var mid := from + Pow2(h - 1);
      var m := AvailableIsAligned(t, h, k, o);
      if b in Live(t.left, h - 1, from) {
        LiveInside(t.left, h - 1, from, b);
        if o < Pow2(h - 1) {
          AvailableIsIdle(t.left, h - 1, from, k, o, b);
        }
      } else {
        LiveInside(t.right, h - 1, mid, b);
        if o >= Pow2(h - 1) {
          AvailableIsIdle(t.right, h - 1, mid, k, o - Pow2(h - 1), b);
        } else {
          var n := AvailableIsAligned(t.left, h - 1, k, o);
        }
      }
    }
  }

  /** An idle node becomes a block. */
  lemma AddedHere(t: Tree, h: nat, from: nat)
    requires Shape(t, h) && Inv(t) && t.st == EMPTY
    ensures Live(t, h, from) == {} && Live(t.(st := BUDDY_FULL, live := true), h, from) == {Block(from, Pow2(h))}
  {
    LiveBusy(t, h, from);
    if h > 0 {
      LiveBusy(t.left, h - 1, from);
      LiveBusy(t.right, h - 1, from + Pow2(h - 1));
    }
  }

  /** A successful search adds its block and no other. */
  lemma {:induction false} SearchAddsBlock(t: Tree, h: nat, k: nat, from: nat)
    requires Shape(t, h) && k <= h && Inv(t)
    ensures var (u, found) := Search(t, h, k);
            && Shape(u, h)
            && (found.Some? ==> Block(from + found.value, Pow2(k)) !in Live(t, h, from)
                                && Live(u, h, from) == Live(t, h, from) + {Block(from + found.value, Pow2(k))})
    decreases h
  {
    if h == k {
      if t.st == EMPTY {
        AddedHere(t, h, from);
      }
    } else if t.st != BUDDY_FULL {
      var mid := from + Pow2(h - 1);
      if Search(t.left, h - 1, k).1.Some? {
        FoundIsStart(t.left, h - 1, k);
        SearchAddsBlock(t.left, h - 1, k, from);
        AddedOnTheLeft(t, h, k, from);
      } else {
        SearchAddsBlock(t.right, h - 1, k, mid);
        AddedOnTheRight(t, h, k, from);
      }
    }
  }

  lemma AddedOnTheLeft(t: Tree, h: nat, k: nat, from: nat)
    requires Shape(t, h) && k < h && !t.live && t.st != BUDDY_FULL
    requires var (l, found) := Search(t.left, h - 1, k);
             && found.Some? && found.value + Pow2(k) <= Pow2(h - 1) && Shape(l, h - 1)
             && Block(from + found.value, Pow2(k)) !in Live(t.left, h - 1, from)
             && Live(l, h - 1, from) == Live(t.left, h - 1, from) + {Block(from + found.value, Pow2(k))}
    ensures var (u, found) := Search(t, h, k);
            && Shape(u, h) && found.Some? && Block(from + found.value, Pow2(k)) !in Live(t, h, from)
            && Live(u, h, from) == Live(t, h, from) + {Block(from + found.value, Pow2(k))}
  {
    var (l, found) := Search(t.left, h - 1, k);
    NotOnTheOtherSide(t.right, h - 1, from + Pow2(h - 1), Block(from + found.value, Pow2(k)));
  }

  lemma AddedOnTheRight(t: Tree, h: nat, k: nat, from: nat)
    requires Shape(t, h) && k < h && !t.live && t.st != BUDDY_FULL && Search(t.left, h - 1, k).1.None?
    requires var (r, found) := Search(t.right, h - 1, k);
             found.Some? ==>
               && Shape(r, h - 1)
               && Block(from + Pow2(h - 1) + found.value, Pow2(k)) !in Live(t.right, h - 1, from + Pow2(h - 1))
               && Live(r, h - 1, from + Pow2(h - 1))
                  == Live(t.right, h - 1, from + Pow2(h - 1)) + {Block(from + Pow2(h - 1) + found.value, Pow2(k))}
    ensures var (u, found) := Search(t, h, k);
            && Shape(u, h)
            && (found.Some? ==> Block(from + found.value, Pow2(k)) !in Live(t, h, from)
                                && Live(u, h, from) == Live(t, h, from) + {Block(from + found.value, Pow2(k))})
  {
    var (r, found) := Search(t.right, h - 1, k);
    if found.Some? {
      NotOnTheOtherSide(t.left, h - 1, from, Block(from + Pow2(h - 1) + found.value, Pow2(k)));
    }
  }

  lemma NotOnTheOtherSide(t: Tree, h: nat, from: nat, b: Block)
    requires Shape(t, h) && b.pages > 0 && (b.start + b.pages <= from || from + Pow2(h) <= b.start)
    ensures b !in Live(t, h, from)
  {
    if b in Live(t, h, from) {
      LiveInside(t, h, from, b);
    }
  }

  /** deallocPage takes out exactly the blocks that cover the page. */
  lemma {:induction false} DeallocRemovesCover(t: Tree, h: nat, q: nat, from: nat)
    requires Shape(t, h) && q < Pow2(h)
    ensures Live(Dealloc(t, h, q), h, from) == set b | b in Live(t, h, from) && !Covers(b, from + q)
    decreases h
  {
    if h > 0 {
      var mid, page := from + Pow2(h - 1), from + q;
      if q < Pow2(h - 1) {
        DeallocRemovesCover(t.left, h - 1, q, from);
        forall b | b in Live(t.right, h - 1, mid) ensures !Covers(b, page) {
          LiveInside(t.right, h - 1, mid, b);
        }
      } else {
        DeallocRemovesCover(t.right, h - 1, q - Pow2(h - 1), mid);
        forall b | b in Live(t.left, h - 1, from) ensures !Covers(b, page) {
          LiveInside(t.left, h - 1, from, b);
        }
      }
    }
  }

  // ---------------------------------------------------------------- runs

  /** The allocator with the blocks its callers hold. */
  datatype Heap = Heap(tree: Tree, held: set<Block>)

  datatype Call = AllocCall(pages: nat) | FreeCall(page: nat)

  /** A free names a page of the heap and meets the path condition. */
  ghost predicate Allowed(s: Heap, h: nat, c: Call)
    requires Shape(s.tree, h)
  {
    c.FreeCall? ==> c.page < Pow2(h) && PathCondition(s.tree, h, c.page)
  }

  ghost function Perform(s: Heap, h: nat, c: Call): Heap
    requires Shape(s.tree, h) && Allowed(s, h, c)
  {
    match c
    case AllocCall(n) =>
      var (t, found) := Alloc(s.tree, h, n);
      Heap(t, if found.Some? then s.held + {Block(found.value, Pow2(CeilLog2(n)))} else s.held)
    case FreeCall(q) =>
      Heap(Dealloc(s.tree, h, q), set b | b in s.held && !Covers(b, q))
  }

  ghost predicate Sound(s: Heap, h: nat) {
    Shape(s.tree, h) && Inv(s.tree) && s.held == Live(s.tree, h, 0)
  }

  lemma PerformKeepsSound(s: Heap, h: nat, c: Call)
    requires Sound(s, h) && Allowed(s, h, c)
    ensures Sound(Perform(s, h, c), h)
  {
    match c
    case AllocCall(n) =>
      if 0 < n <= Pow2(h) {
        SizeFitsHeight(n, h);
        SearchKeepsInv(s.tree, h, CeilLog2(n));
        SearchFindsLowest(s.tree, h, CeilLog2(n));
        SearchAddsBlock(s.tree, h, CeilLog2(n), 0);
      }
    case FreeCall(q) =>
      DeallocKeepsInvIff(s.tree, h, q);
      DeallocRemovesCover(s.tree, h, q, 0);
  }

  ghost predicate Legal(s: Heap, h: nat, calls: seq<Call>)
    decreases |calls|
  {
    && Shape(s.tree, h)
    && (calls == [] || (Allowed(s, h, calls[0]) && Legal(Perform(s, h, calls[0]), h, calls[1..])))
  }

  ghost function Run(s: Heap, h: nat, calls: seq<Call>): Heap
    requires Legal(s, h, calls)
    decreases |calls|
  {
    if calls == [] then s else Run(Perform(s, h, calls[0]), h, calls[1..])
  }

  lemma {:induction false} RunKeepsSound(s: Heap, h: nat, calls: seq<Call>)
    requires Sound(s, h) && Legal(s, h, calls)
    ensures Sound(Run(s, h, calls), h)
    decreases |calls|
  {
    if calls != [] {
      PerformKeepsSound(s, h, calls[0]);
      RunKeepsSound(Perform(s, h, calls[0]), h, calls[1..]);
    }
  }

  /** Over every run of allocations and of frees that meet the path condition, the
      blocks the callers hold are inside the heap and pairwise disjoint. */
  lemma HeldBlocksAreDisjoint(h: nat, calls: seq<Call>, a: Block, b: Block)
    requires Legal(Heap(Fresh(h), {}), h, calls)
    requires var z := Run(Heap(Fresh(h), {}), h, calls); a in z.held && b in z.held
    ensures a.start + a.pages <= Pow2(h) && (a != b ==> Apart(a, b))
  {
    var s := Heap(Fresh(h), {});
    FreshInv(h);
    LiveBusy(Fresh(h), h, 0);
    RunKeepsSound(s, h, calls);
    var z := Run(s, h, calls);
    LiveInside(z.tree, h, 0, a);
    if a != b {
      LiveApart(z.tree, h, 0, a, b);
    }
  }

  // ---------------------------------------------------------------- a free that breaks the heap

  /** The heap after one page has been handed out. */
  function OnePage(h: nat): Tree {
    if h == 0 then Leaf(BUDDY_FULL, true) else Node(PARTIALLY_FULL, false, OnePage(h - 1), Fresh(h - 1))
  }

  /** The heap after two pages have been handed out. */
  function TwoPages(h: nat): Tree
    requires h > 0
  {
    if h == 1 then Node(BUDDY_FULL, false, OnePage(0), OnePage(0))
    else Node(PARTIALLY_FULL, false, TwoPages(h - 1), Fresh(h - 1))
  }

  /** The heap after the first of the two has been freed. */
  function FirstFreed(h: nat): Tree
    requires h > 0
  {
    if h == 1 then Node(PARTIALLY_FULL, false, Leaf(EMPTY, false), OnePage(0))
    else Node(EMPTY, false, FirstFreed(h - 1), Fresh(h - 1))
  }

  lemma {:induction false} FirstAlloc(h: nat)
    ensures Shape(OnePage(h), h) && Search(Fresh(h), h, 0) == (OnePage(h), Some(0))
  {
    if h > 0 {
      FirstAlloc(h - 1);
    }
  }

  lemma {:induction false} SecondAlloc(h: nat)
    requires h > 0
    ensures Shape(OnePage(h), h) && Search(OnePage(h), h, 0) == (TwoPages(h), Some(1))
  {
    FirstAlloc(h);
    if h > 1 {
      SecondAlloc(h - 1);
    } else {
      FirstAlloc(0);
      assert OnePage(1).left == Leaf(BUDDY_FULL, true);
      assert Search(OnePage(1).right, 0, 0) == (Leaf(BUDDY_FULL, true), Some(0));
    }
  }

  lemma {:induction false} FreeFirst(h: nat)
    requires h > 0
    ensures Shape(TwoPages(h), h) && Dealloc(TwoPages(h), h, 0) == FirstFreed(h)
    ensures Shape(FirstFreed(h), h)
  {
    if h > 1 {
      FreeFirst(h - 1);
    }
  }

  lemma {:induction false} FourPages(h: nat)
    requires h >= 2
    ensures Shape(FirstFreed(h), h) && Search(FirstFreed(h), h, 2).1 == Some(0)
  {
    FreeFirst(h);
    if h > 2 {
      FourPages(h - 1);
    }
  }

  /** On every heap of four pages or more: allocate a page, allocate another, free the
      first. The second is still held, yet a request for four pages is answered with
      a block that contains it. The path condition fails for that free. */
  lemma {:induction false} FreeingANeighbourBreaksTheHeap(h: nat)
    requires h >= 2
    ensures var (t1, a) := Alloc(Fresh(h), h, 1);
            && Shape(t1, h) && a == Some(0)
            && var (t2, b) := Alloc(t1, h, 1);
               && Shape(t2, h) && b == Some(1) && !PathCondition(t2, h, 0)
               && var t3 := Dealloc(t2, h, 0);
                  Shape(t3, h) && Block(1, 1) in Live(t3, h, 0) && Alloc(t3, h, 4).1 == Some(0)
  {
    FirstAlloc(h);
    SecondAlloc(h);
    FreeFirst(h);
    FourPages(h);
    assert CeilLog2(4) == 2 && CeilLog2(1) == 0 && Pow2(2) == 4;
    Pow2Splits(h, 2);
    assert Pow2(h) >= 4;
    SecondStillLive(h, 0);
    SecondBlocks(h);
  }

  lemma {:induction false} SecondStillLive(h: nat, from: nat)
    requires h > 0
    ensures Shape(FirstFreed(h), h) && Block(from + 1, 1) in Live(FirstFreed(h), h, from)
  {
    FreeFirst(h);
    if h > 1 {
      SecondStillLive(h - 1, from);
    } else {
      assert Pow2(0) == 1;
      assert Block(from + 1, 1) in Live(FirstFreed(1).right, 0, from + 1);
    }
  }

  lemma {:induction false} SecondBlocks(h: nat)
    requires h >= 2
    ensures Shape(TwoPages(h), h) && !PathCondition(TwoPages(h), h, 0)
  {
    FreeFirst(h);
    FreeFirst(h - 1);
    DeallocBusy(TwoPages(h - 1), h - 1, 0);
    LiveBusy(FirstFreed(h - 1), h - 1, 0);
    SecondStillLive(h - 1, 0);
  }

  // ---------------------------------------------------------------- free pages that are lost

  /** A heap handed out as one block. */
  function OneBlock(h: nat): Tree { Fresh(h).(st := BUDDY_FULL, live := true) }

  /** One page and the other half of the heap were handed out, and then the half was freed. */
  function HalfTaken(h: nat): Tree
    requires h > 0
  {
    Node(BUDDY_FULL, false, OnePage(h - 1), OneBlock(h - 1))
  }

  function HalfFreed(h: nat): Tree
    requires h > 0
  {
    Node(BUDDY_FULL, false, OnePage(h - 1), Fresh(h - 1))
  }

  lemma {:induction false} CeilLog2OfPow2(k: nat)
    ensures CeilLog2(Pow2(k)) == k
  {
    if k > 0 {
      CeilLog2OfPow2(k - 1);
    }
  }

  lemma SearchHalf(l: Tree, r: Tree, h: nat)
    requires h > 0 && Shape(l, h - 1) && Shape(r, h - 1) && l.st == PARTIALLY_FULL && r.st == EMPTY
    ensures Search(Node(PARTIALLY_FULL, false, l, r), h, h - 1)
            == (Node(BUDDY_FULL, false, l, r.(st := BUDDY_FULL, live := true)), Some(Pow2(h - 1)))
  {
  }

  lemma TakeHalf(h: nat)
    requires h >= 2
    ensures Shape(OnePage(h), h) && Shape(HalfTaken(h), h)
    ensures Alloc(OnePage(h), h, Pow2(h - 1)) == (HalfTaken(h), Some(Pow2(h - 1)))
  {
    FirstAlloc(h);
    FirstAlloc(h - 1);
    CeilLog2OfPow2(h - 1);
    SearchHalf(OnePage(h - 1), Fresh(h - 1), h);
  }

  lemma {:induction false} FreeInBlock(h: nat, q: nat)
    requires q < Pow2(h)
    ensures Dealloc(Fresh(h), h, q) == Fresh(h) && Dealloc(OneBlock(h), h, q) == Fresh(h)
    decreases h
  {
    if h > 0 {
      if q < Pow2(h - 1) {
        FreeInBlock(h - 1, q);
      } else {
        FreeInBlock(h - 1, q - Pow2(h - 1));
      }
    }
  }

  lemma FreeHalf(h: nat)
    requires h >= 2
    ensures Shape(HalfTaken(h), h) && PathCondition(HalfTaken(h), h, Pow2(h - 1))
    ensures Dealloc(HalfTaken(h), h, Pow2(h - 1)) == HalfFreed(h)
  {
    FirstAlloc(h - 1);
    FreeInBlock(h - 1, 0);
    FreshInv(h - 1);
    DeallocBusy(OneBlock(h - 1), h - 1, 0);
    PathConditionWhenAlone(OneBlock(h - 1), h - 1, 0);
  }

  /** On every heap of four pages or more: allocate a page, then half of the heap, and free the
      half. Only one page is held, yet every request is answered with NULL: the root stays FULL
      because its other child is PARTIALLY_FULL. */
  lemma FreedHalfStaysLost(h: nat)
    requires h >= 2
    ensures var s, calls := Heap(Fresh(h), {}), [AllocCall(1), AllocCall(Pow2(h - 1)), FreeCall(Pow2(h - 1))];
            && Legal(s, h, calls)
            && var z := Run(s, h, calls);
               z.held == {Block(0, 1)} && Shape(z.tree, h) && forall n: nat :: Alloc(z.tree, h, n).1 == None
  {
    var s, half := Heap(Fresh(h), {}), Pow2(h - 1);
    FirstAlloc(h);
    TakeHalf(h);
    FreeHalf(h);
    CeilLog2OfPow2(h - 1);
    assert CeilLog2(1) == 0 && Pow2(0) == 1;
    var s1 := Heap(OnePage(h), {Block(0, 1)});
    var s2 := Heap(HalfTaken(h), {Block(0, 1), Block(half, half)});
    var s3 := Heap(HalfFreed(h), {Block(0, 1)});
    assert Perform(s, h, AllocCall(1)) == s1;
    assert Perform(s1, h, AllocCall(half)) == s2;
    assert Perform(s2, h, FreeCall(half)) == s3;
    OneCallFirst(s2, FreeCall(half), h, []);
    OneCallFirst(s1, AllocCall(half), h, [FreeCall(half)]);
    OneCallFirst(s, AllocCall(1), h, [AllocCall(half), FreeCall(half)]);
  }

  lemma OneCallFirst(s: Heap, c: Call, h: nat, rest: seq<Call>)
    requires Shape(s.tree, h) && Allowed(s, h, c) && Legal(Perform(s, h, c), h, rest)
    ensures Legal(s, h, [c] + rest) && Run(s, h, [c] + rest) == Run(Perform(s, h, c), h, rest)
  {
    assert ([c] + rest)[1..] == rest;
  }
}
