/** The kernel heap: a list of blocks, each a 28-byte header followed by its data,
    that kmalloc searches first-fit and splits. The type size_t has 32 bits. */
module KernelHeap {
  import opened Basics

  const HEADER := 28
  const KERNEL_HEAP_START := 0x4000
  const KERNEL_HEAP_SIZE := 17 * 4096

  datatype Block = Block(addr: nat, size: nat, free: bool)

  /** Start of the data of a block, and first address after it. */
  function Data(b: Block): nat { b.addr + HEADER }
  function End(b: Block): nat { b.addr + HEADER + b.size }

  // ---------------------------------------------------------------- one call

  /** The macro align4 on an unsigned 32-bit value. */
  function Align4(x: nat): nat
    requires 0 < x < WORD32
  {
    ((x - 1) / 4 * 4 + 4) % WORD32
  }

  predicate Fits(b: Block, s: nat) { b.free && b.size > s }

  /** Index of the first block that fits, or |blocks|. */
  function FirstFit(blocks: seq<Block>, s: nat): (i: nat)
    ensures i <= |blocks|
    ensures forall k :: 0 <= k < i ==> !Fits(blocks[k], s)
    ensures i < |blocks| ==> Fits(blocks[i], s)
  {
    if blocks == [] || Fits(blocks[0], s) then 0 else 1 + FirstFit(blocks[1..], s)
  }

  /** Whether the block is split: the rest must be worth a block of its own, and
      split_block does nothing when the block is smaller than the request. */
  predicate Splits(b: Block, s: nat) {
    b.size > (s + 4 + HEADER) % WORD32 && b.size >= s
  }

  /** The block after the one that was split off. */
  function Rest(b: Block, s: nat): Block {
    Block(Data(b) + s, (b.size - (s + HEADER)) % WORD32, true)
  }

  /** Block i serves a request of s bytes. */
  function Take(blocks: seq<Block>, i: nat, s: nat): seq<Block>
    requires i < |blocks|
  {
    var b := blocks[i];
    if Splits(b, s) then
      blocks[..i] + [Block(b.addr, s, false), Rest(b, s)] + blocks[i + 1..]
    else
      blocks[i := b.(free := false)]
  }

  /** kmalloc on an initialised heap: the blocks afterwards and the address returned. */
  function Allocate(blocks: seq<Block>, size: nat): (seq<Block>, Option<nat>)
    requires size < WORD32
  {
    if size == 0 then (blocks, None)
    else
      var i := FirstFit(blocks, Align4(size));
      if i == |blocks| then (blocks, None)
      else (Take(blocks, i, Align4(size)), Some(Data(blocks[i])))
  }

  // ---------------------------------------------------------------- the tiling

  ghost predicate Adjacent(blocks: seq<Block>, i: nat)
    requires i + 1 < |blocks|
  {
    blocks[i + 1].addr == End(blocks[i])
  }

  /** The blocks cover lo..hi without gaps, on multiples of four. */
  ghost predicate Tiling(blocks: seq<Block>, lo: nat, hi: nat) {
    && |blocks| > 0 && blocks[0].addr == lo && End(blocks[|blocks| - 1]) == hi
    && (forall i :: 0 <= i < |blocks| - 1 ==> Adjacent(blocks, i))
    && (forall b :: b in blocks ==> b.addr % 4 == 0 && b.size % 4 == 0)
  }

  /** Bytes of headers and data. */
  function Extent(blocks: seq<Block>): nat {
    if blocks == [] then 0 else HEADER + blocks[0].size + Extent(blocks[1..])
  }

  /** Blocks of a tiling come in address order and do not overlap. */
  lemma {:induction false} TilingOrder(blocks: seq<Block>, lo: nat, hi: nat, i: nat, j: nat)
    requires Tiling(blocks, lo, hi) && i < j < |blocks|
    ensures End(blocks[i]) <= blocks[j].addr
    decreases j
  {
    assert Adjacent(blocks, j - 1);
    if i < j - 1 {
      TilingOrder(blocks, lo, hi, i, j - 1);
    }
  }

  lemma TilingBounds(blocks: seq<Block>, lo: nat, hi: nat, i: nat)
    requires Tiling(blocks, lo, hi) && i < |blocks|
    ensures lo <= blocks[i].addr && End(blocks[i]) <= hi
  {
    if i > 0 {
      TilingOrder(blocks, lo, hi, 0, i);
    }
    if i < |blocks| - 1 {
      TilingOrder(blocks, lo, hi, i, |blocks| - 1);
    }
  }

  /** Headers and data together always fill the extent. */
  lemma {:induction false} ExtentOfTiling(blocks: seq<Block>, lo: nat, hi: nat)
    requires Tiling(blocks, lo, hi)
    ensures lo + Extent(blocks) == hi
    decreases |blocks|
  {
    if |blocks| > 1 {
      var rest := blocks[1..];
      assert Adjacent(blocks, 0);
      forall i | 0 <= i < |rest| - 1 ensures Adjacent(rest, i) {
        assert Adjacent(blocks, i + 1);
      }
      ExtentOfTiling(rest, End(blocks[0]), hi);
    }
  }

  lemma Align4Effect(x: nat)
    requires 0 < x < WORD32
    ensures Align4(x) % 4 == 0
    ensures x <= WORD32 - 4 ==> x <= Align4(x) < x + 4
    ensures x > WORD32 - 4 ==> Align4(x) == 0
  {
  }

  /** The tiling survives a split. */
  lemma SplitKeepsTiling(blocks: seq<Block>, lo: nat, hi: nat, i: nat, a: Block, b: Block)
    requires Tiling(blocks, lo, hi) && i < |blocks|
    requires a.addr == blocks[i].addr && b.addr == End(a) && End(b) == End(blocks[i])
    requires a.size % 4 == 0 && b.size % 4 == 0
    ensures Tiling(blocks[..i] + [a, b] + blocks[i + 1..], lo, hi)
  {
    var t := blocks[..i] + [a, b] + blocks[i + 1..];
    assert blocks[i] in blocks;
    forall k | 0 <= k < |t| - 1 ensures Adjacent(t, k) {
      if k < i {
        assert Adjacent(blocks, k);
      } else if k > i {
        assert k - 1 < |blocks| - 1 ==> Adjacent(blocks, k - 1);
      }
    }
    forall x | x in t ensures x.addr % 4 == 0 && x.size % 4 == 0 {
      assert x in blocks || x == a || x == b;
    }
  }

  lemma MarkKeepsTiling(blocks: seq<Block>, lo: nat, hi: nat, i: nat)
    requires Tiling(blocks, lo, hi) && i < |blocks|
    ensures Tiling(blocks[i := blocks[i].(free := false)], lo, hi)
  {
    var t := blocks[i := blocks[i].(free := false)];
    assert blocks[i] in blocks;
    forall k | 0 <= k < |t| - 1 ensures Adjacent(t, k) {
      assert Adjacent(blocks, k);
    }
    forall x | x in t ensures x.addr % 4 == 0 && x.size % 4 == 0 {
      assert x in blocks || x == t[i];
    }
  }

  /** The block that serves a request: aligned, no smaller than the aligned request
      and at most 32 bytes larger. */
  lemma TakeEffect(blocks: seq<Block>, lo: nat, hi: nat, i: nat, s: nat)
    requires Tiling(blocks, lo, hi) && hi < WORD32 - 4 - HEADER && i < |blocks| && Fits(blocks[i], s) && s % 4 == 0
    ensures Tiling(Take(blocks, i, s), lo, hi)
    ensures var t := Take(blocks, i, s);
            && i < |t| && t[i].addr == blocks[i].addr && !t[i].free && s <= t[i].size <= s + 4 + HEADER
            && (forall b :: b in blocks && !b.free ==> b in t && b.addr != t[i].addr)
  {
    TilingBounds(blocks, lo, hi, i);
    assert blocks[i] in blocks;
    var b, t := blocks[i], Take(blocks, i, s);
    if Splits(b, s) {
      SplitKeepsTiling(blocks, lo, hi, i, Block(b.addr, s, false), Rest(b, s));
    } else {
      MarkKeepsTiling(blocks, lo, hi, i);
    }
    forall x | x in blocks && !x.free ensures x in t && x.addr != t[i].addr {
      var k :| 0 <= k < |blocks| && blocks[k] == x;
      if k < i {
        assert t[k] == x;
        TilingOrder(blocks, lo, hi, k, i);
      } else {
        assert t[if Splits(b, s) then k + 1 else k] == x;
        TilingOrder(blocks, lo, hi, i, k);
      }
    }
  }

  ghost predicate Increasing(blocks: seq<Block>) {
    forall i, j :: 0 <= i < j < |blocks| ==> blocks[i].addr < blocks[j].addr
  }

  lemma TilingIncreases(blocks: seq<Block>, lo: nat, hi: nat)
    requires Tiling(blocks, lo, hi)
    ensures Increasing(blocks)
  {
    forall i, j | 0 <= i < j < |blocks| ensures blocks[i].addr < blocks[j].addr {
      TilingOrder(blocks, lo, hi, i, j);
    }
  }

  /** kmalloc answers NULL exactly for a request of 0 or when no free block is
      strictly larger than the aligned request. */
  lemma NullIffNothingFits(blocks: seq<Block>, size: nat)
    requires size < WORD32
    ensures Allocate(blocks, size).1 == None <==>
            size == 0 || forall b :: b in blocks && b.free ==> b.size <= Align4(size)
    ensures Allocate(blocks, size).1 == None ==> Allocate(blocks, size).0 == blocks
  {
    if size > 0 {
      var i := FirstFit(blocks, Align4(size));
      if i < |blocks| {
        assert blocks[i] in blocks;
      } else {
        forall b | b in blocks && b.free ensures b.size <= Align4(size) {
          var k :| 0 <= k < |blocks| && blocks[k] == b;
          assert !Fits(blocks[k], Align4(size));
        }
      }
    }
  }

  /** No block of the tiling is listed twice. */
  lemma TilingDistinct(blocks: seq<Block>, lo: nat, hi: nat)
    requires Tiling(blocks, lo, hi)
    ensures forall i, j :: 0 <= i < j < |blocks| ==> blocks[i] != blocks[j]
  {
    TilingIncreases(blocks, lo, hi);
  }

  /** The free block that serves a request of s bytes: the lowest one with more than s bytes. */
  ghost predicate Serves(blocks: seq<Block>, b: Block, s: nat) {
    && b in blocks && b.free && b.size > s
    && forall c :: c in blocks && c.free && c.size > s ==> b.addr <= c.addr
  }

  lemma FirstFitServes(blocks: seq<Block>, lo: nat, hi: nat, s: nat)
    requires Tiling(blocks, lo, hi) && FirstFit(blocks, s) < |blocks|
    ensures Serves(blocks, blocks[FirstFit(blocks, s)], s)
  {
    var i := FirstFit(blocks, s);
    forall c | c in blocks && c.free && c.size > s ensures blocks[i].addr <= c.addr {
      var k :| 0 <= k < |blocks| && blocks[k] == c;
      assert Fits(blocks[k], s);
      if i < k {
        TilingOrder(blocks, lo, hi, i, k);
      }
    }
  }

  /** What becomes of the block that serves. */
  function Pieces(b: Block, s: nat): seq<Block> {
    if Splits(b, s) then [Block(b.addr, s, false), Rest(b, s)] else [b.(free := false)]
  }

  lemma TakeBag(blocks: seq<Block>, i: nat, s: nat)
    requires i < |blocks|
    ensures multiset(Take(blocks, i, s)) == multiset(blocks) - multiset{blocks[i]} + multiset(Pieces(blocks[i], s))
  {
    assert blocks == blocks[..i] + [blocks[i]] + blocks[i + 1..];
    assert Take(blocks, i, s) == blocks[..i] + Pieces(blocks[i], s) + blocks[i + 1..];
  }

  /** Of a block with more than 32 bytes to spare exactly s bytes are used, and the bytes
      behind them form one free block that ends where b ended. */
  function UsedAndRest(b: Block, s: nat): seq<Block>
    requires s < b.size
  {
    if b.size > s + 32 then [Block(b.addr, s, false), Block(b.addr + 28 + s, b.size - s - 28, true)]
    else [Block(b.addr, b.size, false)]
  }

  lemma PiecesAre(b: Block, s: nat)
    requires s < b.size < WORD32 - 4 - HEADER
    ensures Pieces(b, s) == UsedAndRest(b, s)
  {
  }

  /** Block b gave s bytes to a request. All other blocks, free ones included, are as before. */
  ghost predicate GaveFrom(blocks: seq<Block>, after: seq<Block>, b: Block, s: nat)
    requires s < b.size
  {
    multiset(after) == multiset(blocks) - multiset{b} + multiset(UsedAndRest(b, s))
  }

  lemma TakeGives(blocks: seq<Block>, i: nat, s: nat)
    requires i < |blocks| && s < blocks[i].size < WORD32 - 4 - HEADER
    ensures GaveFrom(blocks, Take(blocks, i, s), blocks[i], s)
  {
    TakeBag(blocks, i, s);
    PiecesAre(blocks[i], s);
  }

  /** A request that is answered gets the data of the lowest free block that is larger than
      the aligned request, and takes no more of free memory than that. */
  lemma RequestEffect(blocks: seq<Block>, lo: nat, hi: nat, size: nat) returns (b: Block)
    requires Tiling(blocks, lo, hi) && hi < WORD32 - 4 - HEADER && size < WORD32
    requires Allocate(blocks, size).1.Some?
    ensures size > 0 && Serves(blocks, b, Align4(size)) && Allocate(blocks, size).1 == Some(b.addr + 28)
    ensures GaveFrom(blocks, Allocate(blocks, size).0, b, Align4(size))
  {
    var i := FirstFit(blocks, Align4(size));
    b := blocks[i];
    FirstFitServes(blocks, lo, hi, Align4(size));
    TilingBounds(blocks, lo, hi, i);
    TakeGives(blocks, i, Align4(size));
  }

  // ---------------------------------------------------------------- the object

  /** A block header in memory; 0 stands for NULL. */
  datatype Header = Header(size: nat, next: nat, free: bool)

  /** Header i of the list is in memory and points to the next one. */
  ghost predicate HeaderAt(headers: map<nat, Header>, blocks: seq<Block>, i: nat)
    requires i < |blocks|
  {
    && blocks[i].addr in headers
    && headers[blocks[i].addr] ==
       Header(blocks[i].size, if i + 1 < |blocks| then blocks[i + 1].addr else 0, blocks[i].free)
  }

  ghost predicate Linked(headers: map<nat, Header>, blocks: seq<Block>) {
    forall i :: 0 <= i < |blocks| ==> HeaderAt(headers, blocks, i)
  }

  lemma LinkedAfterSplit(headers: map<nat, Header>, blocks: seq<Block>, i: nat, a: Block, b: Block)
    requires Linked(headers, blocks) && i < |blocks| && a.addr == blocks[i].addr && a.addr in headers
    requires Increasing(blocks[..i] + [a, b] + blocks[i + 1..])
    ensures var h := headers[b.addr := Header(b.size, headers[a.addr].next, b.free)]
                            [a.addr := Header(a.size, b.addr, a.free)];
            Linked(h, blocks[..i] + [a, b] + blocks[i + 1..])
  {
    assert HeaderAt(headers, blocks, i);
    var t := blocks[..i] + [a, b] + blocks[i + 1..];
    var h := headers[b.addr := Header(b.size, headers[a.addr].next, b.free)][a.addr := Header(a.size, b.addr, a.free)];
    assert t[i] == a && t[i + 1] == b;
    forall k | 0 <= k < |t| ensures HeaderAt(h, t, k) {
      if k < i {
        assert HeaderAt(headers, blocks, k);
      } else if k > i + 1 {
        assert HeaderAt(headers, blocks, k - 1);
      }
    }
  }

  lemma LinkedAfterMark(headers: map<nat, Header>, blocks: seq<Block>, i: nat)
    requires Linked(headers, blocks) && i < |blocks| && Increasing(blocks) && HeaderAt(headers, blocks, i)
    ensures Linked(headers[blocks[i].addr := headers[blocks[i].addr].(free := false)],
                   blocks[i := blocks[i].(free := false)])
  {
    var t := blocks[i := blocks[i].(free := false)];
    var h := headers[blocks[i].addr := headers[blocks[i].addr].(free := false)];
    forall k | 0 <= k < |t| ensures HeaderAt(h, t, k) {
      assert HeaderAt(headers, blocks, k);
    }
  }

  class KernelMemory {
    var headers: map<nat, Header>
    var kernelBase: nat
    ghost var blocks: seq<Block>
    ghost var end: nat

    /** The list that starts at kernelBase is `blocks`, a tiling up to `end`. */
    ghost predicate Valid()
      reads this
    {
      && 0 < kernelBase && end < WORD32 - 4 - HEADER && Tiling(blocks, kernelBase, end)
      && Linked(headers, blocks)
    }

    /** Before initializeKernelHeap the base is NULL. */
    constructor ()
      ensures kernelBase == 0
    {
      headers, kernelBase, blocks, end := map[], 0, [], 0;
    }

    method InitializeKernelHeap()
      modifies this
      ensures Valid() && blocks == [Block(KERNEL_HEAP_START, KERNEL_HEAP_SIZE, true)]
    {
      kernelBase := KERNEL_HEAP_START;
      headers := headers[KERNEL_HEAP_START := Header(KERNEL_HEAP_SIZE, 0, true)];
      blocks := [Block(KERNEL_HEAP_START, KERNEL_HEAP_SIZE, true)];
      end := KERNEL_HEAP_START + HEADER + KERNEL_HEAP_SIZE;
      assert HeaderAt(headers, blocks, 0);
    }

    /** The walk of findFirstFreeBlock. */
    method FindFirstFreeBlock(size: nat) returns (current: nat, ghost index: nat)
      requires Valid()
      ensures current == if FirstFit(blocks, size) < |blocks| then blocks[FirstFit(blocks, size)].addr else 0
      ensures index == FirstFit(blocks, size) && (index < |blocks| ==> current > 0)
    {
      current, index := kernelBase, 0;
      assert HeaderAt(headers, blocks, 0);
      while current != 0 && !(headers[current].free && headers[current].size > size)
        invariant index <= |blocks|
        invariant if index < |blocks| then current == blocks[index].addr > 0 && HeaderAt(headers, blocks, index)
                  else current == 0
        invariant forall k :: 0 <= k < index ==> !Fits(blocks[k], size)
        decreases |blocks| - index
      {
        current := headers[current].next;
        index := index + 1;
        if index < |blocks| {
          TilingBounds(blocks, kernelBase, end, index);
          assert HeaderAt(headers, blocks, index);
        }
      }
    }

    /** split_block. */
    method SplitBlock(current: nat, size: nat, ghost index: nat)
      requires Valid() && index < |blocks| && current == blocks[index].addr && size % 4 == 0
      requires Fits(blocks[index], size) && Splits(blocks[index], size)
      modifies this
      ensures Valid() && kernelBase == old(kernelBase) && end == old(end)
      ensures var b := old(blocks)[index];
              && blocks == old(blocks)[..index] + [b.(size := size), Rest(b, size)] + old(blocks)[index + 1..]
              && blocks[index + 1].free && blocks[index + 1].addr == b.addr + 28 + size
              && End(blocks[index + 1]) == End(b)
    {
      ghost var a, b := blocks[index].(size := size), Rest(blocks[index], size);
      TilingBounds(blocks, kernelBase, end, index);
      assert HeaderAt(headers, blocks, index) && blocks[index] in blocks;
      SplitKeepsTiling(blocks, kernelBase, end, index, a, b);
      TilingIncreases(blocks[..index] + [a, b] + blocks[index + 1..], kernelBase, end);
      LinkedAfterSplit(headers, blocks, index, a, b);
      var h := headers[current];
      var newBlock := current + HEADER + size;
      headers := headers[newBlock := Header((h.size - (size + HEADER)) % WORD32, h.next, true)];
      headers := headers[current := Header(size, newBlock, h.free)];
      blocks := blocks[..index] + [a, b] + blocks[index + 1..];
    }

    /** The assignment freeBlock->free = 0. */
    method MarkUsed(current: nat, ghost index: nat)
      requires Valid() && index < |blocks| && current == blocks[index].addr
      modifies this
      ensures Valid() && kernelBase == old(kernelBase) && end == old(end)
      ensures blocks == old(blocks)[index := old(blocks)[index].(free := false)]
    {
      assert HeaderAt(headers, blocks, index);
      TilingIncreases(blocks, kernelBase, end);
      LinkedAfterMark(headers, blocks, index);
      MarkKeepsTiling(blocks, kernelBase, end, index);
      headers := headers[current := headers[current].(free := false)];
      blocks := blocks[index := blocks[index].(free := false)];
    }

    /** The end of kmalloc: split the block if the rest is worth it, and mark it. */
    method TakeBlock(freeBlock: nat, s: nat, ghost index: nat)
      requires Valid() && index < |blocks| && freeBlock == blocks[index].addr && s % 4 == 0 && Fits(blocks[index], s)
      modifies this
      ensures Valid() && kernelBase == old(kernelBase) && end == old(end)
      ensures blocks == Take(old(blocks), index, s)
    {
      assert HeaderAt(headers, blocks, index);
      TilingBounds(blocks, kernelBase, end, index);
      if headers[freeBlock].size > (s + 4 + HEADER) % WORD32 {
        SplitBlock(freeBlock, s, index);
      }
      MarkUsed(freeBlock, index);
    }

    /** kmalloc; NULL is 0. */
    method Kmalloc(size: nat) returns (p: nat)
      requires size < WORD32 && (kernelBase != 0 ==> Valid())
      modifies this
      ensures old(kernelBase) == 0 ==> p == KERNEL_HEAP_START && kernelBase == 0 && headers == old(headers)
      ensures old(kernelBase) != 0 ==>
                && Valid() && kernelBase == old(kernelBase) && end == old(end)
                && blocks == Allocate(old(blocks), size).0
                && p == match Allocate(old(blocks), size).1 { case Some(at) => at case None => 0 }
    {
      if kernelBase == 0 {
        return KERNEL_HEAP_START;
      }
      if size == 0 {
        return 0;
      }
      var s := Align4(size);
      Align4Effect(size);
      var freeBlock, index := FindFirstFreeBlock(s);
      if freeBlock == 0 {
        return 0;
      }
      TakeBlock(freeBlock, s, index);
      p := freeBlock + HEADER;
    }
  }

  // ---------------------------------------------------------------- runs

  /** An area handed out: its address and the size that was asked for. */
  datatype Area = Area(at: nat, size: nat)

  datatype Heap = Heap(blocks: seq<Block>, areas: seq<Area>)

  function Perform(h: Heap, size: nat): Heap
    requires size < WORD32
  {
    var (t, p) := Allocate(h.blocks, size);
    Heap(t, if p.Some? then h.areas + [Area(p.value, size)] else h.areas)
  }

  /** The used block behind an area, which covers it. */
  ghost predicate Backed(blocks: seq<Block>, a: Area, b: Block) {
    b in blocks && !b.free && a.at == Data(b) && a.size <= b.size <= a.size + 3 + 4 + HEADER
  }

  ghost predicate HasBlock(blocks: seq<Block>, a: Area) {
    exists b :: Backed(blocks, a, b)
  }

  ghost predicate AllBacked(h: Heap) {
    forall i :: 0 <= i < |h.areas| ==> HasBlock(h.blocks, h.areas[i])
  }

  ghost predicate Distinct(areas: seq<Area>) {
    forall i, j :: 0 <= i < j < |areas| ==> areas[i].at != areas[j].at
  }

  ghost predicate Inv(h: Heap, lo: nat, hi: nat) {
    Tiling(h.blocks, lo, hi) && AllBacked(h) && Distinct(h.areas)
  }

  /** Requests whose alignment does not wrap around. */
  predicate Reasonable(size: nat) { size <= WORD32 - 4 }

  ghost predicate AllReasonable(sizes: seq<nat>) {
    forall i :: 0 <= i < |sizes| ==> Reasonable(sizes[i])
  }

  lemma PerformKeepsInv(h: Heap, lo: nat, hi: nat, size: nat)
    requires Inv(h, lo, hi) && hi < WORD32 - 4 - HEADER && Reasonable(size)
    ensures Inv(Perform(h, size), lo, hi)
  {
    var z := Perform(h, size);
    if Allocate(h.blocks, size).1.Some? {
      Align4Effect(size);
      var i := FirstFit(h.blocks, Align4(size));
      TakeEffect(h.blocks, lo, hi, i, Align4(size));
      forall k | 0 <= k < |z.areas|
        ensures HasBlock(z.blocks, z.areas[k])
        ensures k < |h.areas| ==> z.areas[k].at != Data(z.blocks[i])
      {
        if k < |h.areas| {
          assert HasBlock(h.blocks, h.areas[k]);
          var b :| Backed(h.blocks, h.areas[k], b);
          assert Backed(z.blocks, z.areas[k], b);
        } else {
          assert Backed(z.blocks, z.areas[k], z.blocks[i]);
        }
      }
    }
  }

  ghost function RunRequests(h: Heap, sizes: seq<nat>): Heap
    requires AllReasonable(sizes)
    decreases |sizes|
  {
    if sizes == [] then h else RunRequests(Perform(h, sizes[0]), sizes[1..])
  }

  lemma {:induction false} RunKeepsInv(h: Heap, lo: nat, hi: nat, sizes: seq<nat>)
    requires Inv(h, lo, hi) && hi < WORD32 - 4 - HEADER && AllReasonable(sizes)
    ensures Inv(RunRequests(h, sizes), lo, hi)
    decreases |sizes|
  {
    if sizes != [] {
      PerformKeepsInv(h, lo, hi, sizes[0]);
      RunKeepsInv(Perform(h, sizes[0]), lo, hi, sizes[1..]);
    }
  }

  function Initial(lo: nat, size: nat): Heap {
    Heap([Block(lo, size, true)], [])
  }

  ghost predicate InsideExtent(a: Area, lo: nat, size: nat) {
    a.at % 4 == 0 && lo + HEADER <= a.at && a.at + a.size <= lo + HEADER + size
  }

  predicate Apart(a: Area, b: Area) { a.at + a.size <= b.at || b.at + b.size <= a.at }

  /** Over every run of kmalloc from an initial heap: headers and data fill the initial
      extent, every area handed out is aligned and inside it, and any two are disjoint. */
  lemma AreasAreDisjoint(lo: nat, size: nat, sizes: seq<nat>)
    requires lo % 4 == 0 && size % 4 == 0 && lo + size < WORD32 - 2 * HEADER - 4
    requires AllReasonable(sizes)
    ensures var z := RunRequests(Initial(lo, size), sizes);
            && Extent(z.blocks) == HEADER + size
            && (forall i :: 0 <= i < |z.areas| ==> InsideExtent(z.areas[i], lo, size))
            && (forall i, j :: 0 <= i < j < |z.areas| ==> Apart(z.areas[i], z.areas[j]))
  {
    var z, hi := RunRequests(Initial(lo, size), sizes), lo + HEADER + size;
    RunKeepsInv(Initial(lo, size), lo, hi, sizes);
    ExtentOfTiling(z.blocks, lo, hi);
    forall i | 0 <= i < |z.areas| ensures InsideExtent(z.areas[i], lo, size) {
      var k := BlockOf(z, lo, hi, i);
    }
    forall i, j | 0 <= i < j < |z.areas| ensures Apart(z.areas[i], z.areas[j]) {
      TwoAreas(z, lo, hi, i, j);
    }
  }

  lemma TwoAreas(z: Heap, lo: nat, hi: nat, i: nat, j: nat)
    requires Inv(z, lo, hi) && i < j < |z.areas|
    ensures Apart(z.areas[i], z.areas[j])
  {
    var a := BlockOf(z, lo, hi, i);
    var b := BlockOf(z, lo, hi, j);
    assert a != b;
    if a < b {
      TilingOrder(z.blocks, lo, hi, a, b);
    } else {
      TilingOrder(z.blocks, lo, hi, b, a);
    }
  }

  lemma BlockOf(z: Heap, lo: nat, hi: nat, i: nat) returns (k: nat)
    requires Inv(z, lo, hi) && i < |z.areas|
    ensures k < |z.blocks| && Backed(z.blocks, z.areas[i], z.blocks[k])
    ensures lo <= z.blocks[k].addr && End(z.blocks[k]) <= hi && z.areas[i].at % 4 == 0
  {
    assert HasBlock(z.blocks, z.areas[i]);
    var b :| Backed(z.blocks, z.areas[i], b);
    k :| 0 <= k < |z.blocks| && z.blocks[k] == b;
    TilingBounds(z.blocks, lo, hi, k);
  }

  // ---------------------------------------------------------------- requests on a fresh heap

  /** A request rounded up to a multiple of four, and the bytes that requests take with their headers. */
  function Rounded(size: nat): nat { (size + 3) / 4 * 4 }

  function Needed(sizes: seq<nat>): nat {
    if sizes == [] then 0 else HEADER + Rounded(sizes[0]) + Needed(sizes[1..])
  }

  /** Areas side by side from `at` on, with a header between any two. */
  function SideBySide(at: nat, sizes: seq<nat>): seq<Area>
    decreases |sizes|
  {
    if sizes == [] then [] else [Area(at, sizes[0])] + SideBySide(at + Rounded(sizes[0]) + HEADER, sizes[1..])
  }

  ghost predicate AllUsed(blocks: seq<Block>) {
    forall i :: 0 <= i < |blocks| ==> !blocks[i].free
  }

  lemma {:induction false} FitsLast(used: seq<Block>, b: Block, s: nat)
    requires AllUsed(used) && Fits(b, s)
    ensures FirstFit(used + [b], s) == |used|
    decreases |used|
  {
    if used != [] {
      assert (used + [b])[1..] == used[1..] + [b];
      assert (used + [b])[0] == used[0];
      FitsLast(used[1..], b, s);
    }
  }

  /** One request to a heap whose only free block is the last one. */
  lemma OneMore(used: seq<Block>, at: nat, n: nat, areas: seq<Area>, size: nat)
    requires AllUsed(used) && at + HEADER + n < WORD32 && 0 < size && Reasonable(size) && Rounded(size) + 32 < n
    ensures var s := Rounded(size);
            Perform(Heap(used + [Block(at, n, true)], areas), size)
            == Heap(used + [Block(at, s, false)] + [Block(at + HEADER + s, n - s - HEADER, true)],
                    areas + [Area(at + HEADER, size)])
  {
    var b, s, i := Block(at, n, true), Rounded(size), |used|;
    assert Align4(size) == s;
    FitsLast(used, b, s);
    var t := used + [b];
    assert t[..i] == used && t[i] == b && t[i + 1..] == [];
    assert Take(t, i, s) == used + [Block(at, s, false)] + [Rest(b, s)];
  }

  /** All blocks but the last, of n bytes at `at`, are used. */
  ghost predicate OneFree(h: Heap, at: nat, n: nat) {
    var last := |h.blocks| - 1;
    last >= 0 && AllUsed(h.blocks[..last]) && h.blocks[last] == Block(at, n, true) && at + HEADER + n < WORD32
  }

  lemma OneMoreOf(h: Heap, at: nat, n: nat, size: nat)
    requires OneFree(h, at, n) && 0 < size && Reasonable(size) && Rounded(size) + 32 < n
    ensures var z, s := Perform(h, size), Rounded(size);
            OneFree(z, at + HEADER + s, n - s - HEADER) && z.areas == h.areas + [Area(at + HEADER, size)]
  {
    var used := h.blocks[..|h.blocks| - 1];
    assert h.blocks == used + [Block(at, n, true)];
    OneMore(used, at, n, h.areas, size);
  }

  ghost predicate Askable(sizes: seq<nat>) {
    forall i :: 0 <= i < |sizes| ==> sizes[i] > 0 && Reasonable(sizes[i])
  }

  lemma AskableRest(sizes: seq<nat>)
    requires Askable(sizes)
    ensures AllReasonable(sizes)
    ensures sizes != [] ==> Askable(sizes[1..]) && Needed(sizes) == HEADER + Rounded(sizes[0]) + Needed(sizes[1..])
  {
    forall i | 0 <= i < |sizes| ensures Reasonable(sizes[i]) {
    }
  }

  /** The requests got areas side by side, and the free block shrank by what they needed. */
  ghost predicate Served(areas: seq<Area>, at: nat, n: nat, sizes: seq<nat>, z: Heap)
    requires Needed(sizes) <= n
  {
    OneFree(z, at + Needed(sizes), n - Needed(sizes)) && z.areas == areas + SideBySide(at + HEADER, sizes)
  }

  lemma ServedOneMore(areas: seq<Area>, at: nat, n: nat, sizes: seq<nat>, z: Heap)
    requires sizes != [] && Needed(sizes) <= n
    requires var s := Rounded(sizes[0]);
             Served(areas + [Area(at + HEADER, sizes[0])], at + HEADER + s, n - s - HEADER, sizes[1..], z)
    ensures Served(areas, at, n, sizes, z)
  {
    Regroup(areas, Area(at + HEADER, sizes[0]), SideBySide(at + 2 * HEADER + Rounded(sizes[0]), sizes[1..]));
  }

  lemma Regroup(areas: seq<Area>, a: Area, more: seq<Area>)
    ensures areas + [a] + more == areas + ([a] + more)
  {
  }

  lemma {:induction false} ServedFromTheEnd(h: Heap, at: nat, n: nat, sizes: seq<nat>)
    requires OneFree(h, at, n) && Needed(sizes) + 4 < n && Askable(sizes)
    ensures AllReasonable(sizes) && Served(h.areas, at, n, sizes, RunRequests(h, sizes))
    decreases |sizes|
  {
    AskableRest(sizes);
    if sizes != [] {
      var s, z := Rounded(sizes[0]), Perform(h, sizes[0]);
      OneMoreOf(h, at, n, sizes[0]);
      ServedFromTheEnd(z, at + HEADER + s, n - s - HEADER, sizes[1..]);
      ServedOneMore(h.areas, at, n, sizes, RunRequests(z, sizes[1..]));
    }
  }

  /** On a fresh heap all requests are served, side by side, as long as they fit with their
      headers and more than four bytes remain; what remains is one free block. */
  lemma FreshHeapServesInOrder(lo: nat, size: nat, sizes: seq<nat>)
    requires lo + HEADER + size < WORD32 && Needed(sizes) + 4 < size && Askable(sizes)
    ensures AllReasonable(sizes)
    ensures var z := RunRequests(Initial(lo, size), sizes);
            && z.areas == SideBySide(lo + HEADER, sizes)
            && OneFree(z, lo + Needed(sizes), size - Needed(sizes))
  {
    ServedFromTheEnd(Initial(lo, size), lo, size, sizes);
  }

  /** The heap of the kernel, asked twice for 100 bytes. */
  lemma KernelHeapServesTwice()
    ensures RunRequests(Initial(KERNEL_HEAP_START, KERNEL_HEAP_SIZE), [100, 100]).areas
            == [Area(0x401C, 100), Area(0x409C, 100)]
  {
    assert Needed([100, 100]) == 256 by {
      assert [100, 100][1..] == [100] && [100][1..] == [];
    }
    FreshHeapServesInOrder(KERNEL_HEAP_START, KERNEL_HEAP_SIZE, [100, 100]);
    assert SideBySide(0x401C, [100, 100]) == [Area(0x401C, 100)] + SideBySide(0x409C, [100]);
    assert SideBySide(0x409C, [100]) == [Area(0x409C, 100)] + SideBySide(0x411C, []);
  }

  /** An answer covers the request exactly when the alignment does not wrap: the
      largest three sizes are aligned to 0 and get a block that is too small. */
  lemma AnswerCoversIff(blocks: seq<Block>, lo: nat, hi: nat, size: nat)
    requires Tiling(blocks, lo, hi) && hi < WORD32 - 4 - HEADER && size < WORD32
    requires Allocate(blocks, size).1.Some?
    ensures (exists b :: b in Allocate(blocks, size).0 && !b.free
                         && Data(b) == Allocate(blocks, size).1.value && b.size >= size)
            <==> Reasonable(size)
  {
    Align4Effect(size);
    var s := Align4(size);
    var i := FirstFit(blocks, s);
    TakeEffect(blocks, lo, hi, i, s);
    var t := Take(blocks, i, s);
    assert t[i] in t;
    if !Reasonable(size) {
      forall b | b in t && !b.free && Data(b) == Data(blocks[i]) ensures b.size < size {
        var k :| 0 <= k < |t| && t[k] == b;
        if k < i {
          TilingOrder(t, lo, hi, k, i);
        } else if k > i {
          TilingOrder(t, lo, hi, i, k);
        }
      }
    }
  }
}
