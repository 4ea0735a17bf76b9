/** The image that the module packer appends to the kernel, and the loader that
    copies each module from it to its address. */
module ModuleImage {
  import opened Basics

  const BUFFER_SIZE := 128

  // ---------------------------------------------------------------- 32-bit words in memory

  /** The lowest k base-256 digits of n, lowest first. */
  function Digits(n: nat, k: nat): (b: seq<byte>)
    ensures |b| == k
    decreases n, k
  {
    if k == 0 then [] else [n % 0x100] + Digits(n / 0x100, k - 1)
  }

  function Value(b: seq<byte>): nat {
    if b == [] then 0 else b[0] as int + 0x100 * Value(b[1..])
  }

  /** The bytes of an unsigned 32-bit word; larger values are truncated. */
  function LittleEndian(n: nat): (b: seq<byte>)
    ensures |b| == 4
  {
    Digits(n, 4)
  }

  lemma DigitsStep(n: nat, k: nat)
    requires k > 0
    ensures Value(Digits(n, k)) == n % 0x100 + 0x100 * Value(Digits(n / 0x100, k - 1))
  {
    assert Digits(n, k)[1..] == Digits(n / 0x100, k - 1);
  }

  lemma ValueOfLittleEndian(n: nat)
    ensures Value(LittleEndian(n)) == n % WORD32
  {
    var a := n / 0x100;
    var b := a / 0x100;
    var c := b / 0x100;
    DigitsStep(n, 4);
    DigitsStep(a, 3);
    DigitsStep(b, 2);
    DigitsStep(c, 1);
    TruncateToWord(n);
  }

  /** The lowest byte comes first. */
  lemma LowestByteFirst(n: nat)
    ensures LittleEndian(n)
            == [n % 0x100, n / 0x100 % 0x100, n / 0x100 / 0x100 % 0x100, n / 0x100 / 0x100 / 0x100 % 0x100]
  {
    var a := n / 0x100;
    var b := a / 0x100;
    var c := b / 0x100;
    assert Digits(c, 1) == [c % 0x100] + Digits(c / 0x100, 0);
    assert Digits(b, 2) == [b % 0x100] + Digits(c, 1);
    assert Digits(a, 3) == [a % 0x100] + Digits(b, 2);
    assert Digits(n, 4) == [n % 0x100] + Digits(a, 3);
  }

  /** A 32-bit word holds a number exactly when it is below 2^32. */
  lemma WordHoldsIff(n: nat)
    ensures Value(LittleEndian(n)) == n <==> n < WORD32
  {
    ValueOfLittleEndian(n);
  }

  lemma SplitAfter(a: seq<byte>, b: seq<byte>)
    ensures (a + b)[..|a|] == a && (a + b)[|a|..] == b
  {
  }

  lemma TruncateToWord(n: nat)
    ensures n % WORD32 ==
            n % 0x100 + 0x100 * (n / 0x100 % 0x100
              + 0x100 * (n / 0x100 / 0x100 % 0x100 + 0x100 * (n / 0x100 / 0x100 / 0x100 % 0x100)))
  {
  }

  /** A 32-bit load. */
  function Join(b0: byte, b1: byte, b2: byte, b3: byte): (n: nat)
    ensures n == Value([b0, b1, b2, b3]) < WORD32
  {
    assert Value([b0, b1, b2, b3]) == b0 as int + 0x100 * Value([b1, b2, b3]);
    assert Value([b1, b2, b3]) == b1 as int + 0x100 * Value([b2, b3]);
    assert Value([b2, b3]) == b2 as int + 0x100 * Value([b3]);
    assert Value([b3]) == b3 as int + 0x100 * Value([]);
    b0 as int + 0x100 * (b1 as int) + 0x1_0000 * (b2 as int) + 0x100_0000 * (b3 as int)
  }

  // ---------------------------------------------------------------- the format

  function Entry(m: seq<byte>): seq<byte> {
    LittleEndian(|m|) + m
  }

  function Entries(mods: seq<seq<byte>>): seq<byte> {
    if mods == [] then [] else Entry(mods[0]) + Entries(mods[1..])
  }

  /** What follows the kernel in the image. */
  function Payload(mods: seq<seq<byte>>): seq<byte> {
    LittleEndian(|mods|) + Entries(mods)
  }

  lemma {:induction false} EntriesSnoc(mods: seq<seq<byte>>, m: seq<byte>)
    ensures Entries(mods + [m]) == Entries(mods) + Entry(m)
    decreases |mods|
  {
    if mods == [] {
      assert Entries([m]) == Entry(m) + Entries([]);
      assert mods + [m] == [m];
    } else {
      EntriesSnoc(mods[1..], m);
      assert (mods + [m])[1..] == mods[1..] + [m];
    }
  }

  lemma {:induction false} EntriesSplit(mods: seq<seq<byte>>, i: nat)
    requires i <= |mods|
    ensures Entries(mods) == Entries(mods[..i]) + Entries(mods[i..])
    decreases |mods| - i
  {
    if i == |mods| {
      assert mods[..i] == mods;
    } else {
      EntriesSplit(mods, i + 1);
      EntriesSnoc(mods[..i], mods[i]);
      assert mods[..i + 1] == mods[..i] + [mods[i]];
      assert mods[i..][1..] == mods[i + 1..];
    }
  }

  // ---------------------------------------------------------------- packing

  class File {
    var bytes: seq<byte>

    constructor ()
      ensures bytes == []
    {
      bytes := [];
    }

    method Fwrite(data: seq<byte>)
      modifies this
      ensures bytes == old(bytes) + data
    {
      bytes := bytes + data;
    }

    /** write_file: chunks of at most BUFFER_SIZE bytes, until a short read sets the
        end-of-file flag. A file whose size is a multiple of the buffer takes one
        more, empty, chunk. */
    method WriteFile(source: seq<byte>)
      modifies this
      ensures bytes == old(bytes) + source
    {
      var position, eof := 0, false;
      while !eof
        invariant position <= |source| && (eof ==> position == |source|)
        invariant bytes == old(bytes) + source[..position]
        decreases |source| - position, !eof
      {
        var read := if |source| - position < BUFFER_SIZE then |source| - position else BUFFER_SIZE;
        Fwrite(source[position..position + read]);
        eof := read < BUFFER_SIZE;
        position := position + read;
      }
    }

    /** buildImage: the kernel, the number of modules, then each size and module. */
    method BuildImage(kernel: seq<byte>, mods: seq<seq<byte>>)
      modifies this
      ensures bytes == old(bytes) + kernel + Payload(mods)
    {
      WriteFile(kernel);
      Fwrite(LittleEndian(|mods|));
      var i := 0;
      ghost var start := bytes;
      while i < |mods|
        invariant i <= |mods| && bytes == start + Entries(mods[..i])
      {
        Fwrite(LittleEndian(|mods[i]|));
        WriteFile(mods[i]);
        EntriesSnoc(mods[..i], mods[i]);
        assert mods[..i + 1] == mods[..i] + [mods[i]];
        i := i + 1;
      }
      assert mods[..i] == mods;
    }
  }

  // ---------------------------------------------------------------- copying

  ghost predicate Apart(a: nat, alen: nat, b: nat, blen: nat) {
    a + alen <= b || b + blen <= a
  }

  /** Memory after the bytes at src have been copied to dst. */
  function Copied(mem: seq<byte>, dst: nat, src: nat, length: nat): (m: seq<byte>)
    requires dst + length <= |mem| && src + length <= |mem|
    ensures |m| == |mem|
  {
    seq(|mem|, a requires 0 <= a < |mem| => if dst <= a < dst + length then mem[src + (a - dst)] else mem[a])
  }

  /** Copying the first k bytes, then the next n, is copying k + n. */
  lemma CopiedMore(mem: seq<byte>, dst: nat, src: nat, k: nat, n: nat)
    requires dst + k + n <= |mem| && src + k + n <= |mem| && Apart(dst, k + n, src, k + n)
    ensures Copied(Copied(mem, dst, src, k), dst + k, src + k, n) == Copied(mem, dst, src, k + n)
  {
  }

  method CopyByte(mem: array<byte>, d: nat, s: nat)
    requires d < mem.Length && s < mem.Length
    modifies mem
    ensures mem[..] == Copied(old(mem[..]), d, s, 1)
  {
    mem[d] := mem[s];
  }

  /** One 32-bit load and store. */
  method CopyWord(mem: array<byte>, d: nat, s: nat)
    requires d + 4 <= mem.Length && s + 4 <= mem.Length
    modifies mem
    ensures mem[..] == Copied(old(mem[..]), d, s, 4)
  {
    var a, b, c, e := mem[s], mem[s + 1], mem[s + 2], mem[s + 3];
    mem[d], mem[d + 1], mem[d + 2], mem[d + 3] := a, b, c, e;
  }

  /** The word path of memcpy. */
  method CopyWords(mem: array<byte>, destination: nat, source: nat, words: nat)
    requires destination + 4 * words <= mem.Length && source + 4 * words <= mem.Length
    requires Apart(destination, 4 * words, source, 4 * words)
    modifies mem
    ensures mem[..] == Copied(old(mem[..]), destination, source, 4 * words)
  {
    ghost var start := mem[..];
    var i := 0;
    while i < words
      invariant i <= words && mem[..] == Copied(start, destination, source, 4 * i)
    {
      CopiedMore(start, destination, source, 4 * i, 4);
      CopyWord(mem, destination + 4 * i, source + 4 * i);
      i := i + 1;
    }
  }

  /** The byte path of memcpy. */
  method CopyBytes(mem: array<byte>, destination: nat, source: nat, length: nat)
    requires destination + length <= mem.Length && source + length <= mem.Length
    requires Apart(destination, length, source, length)
    modifies mem
    ensures mem[..] == Copied(old(mem[..]), destination, source, length)
  {
    ghost var start := mem[..];
    var i := 0;
    while i < length
      invariant i <= length && mem[..] == Copied(start, destination, source, i)
    {
      CopiedMore(start, destination, source, i, 1);
      CopyByte(mem, destination + i, source + i);
      i := i + 1;
    }
  }

  /** memcpy between ranges that do not overlap: word by word when everything is
      aligned, byte by byte otherwise, with the same result. */
  method Memcpy(mem: array<byte>, destination: nat, source: nat, length: nat)
    requires destination + length <= mem.Length && source + length <= mem.Length
    requires Apart(destination, length, source, length)
    modifies mem
    ensures mem[..] == Copied(old(mem[..]), destination, source, length)
  {
    if destination % 4 == 0 && source % 4 == 0 && length % 4 == 0 {
      assert 4 * (length / 4) == length;
      CopyWords(mem, destination, source, length / 4);
    } else {
      CopyBytes(mem, destination, source, length);
    }
  }

  // ---------------------------------------------------------------- loading

  method ReadUint32(mem: array<byte>, address: nat) returns (result: nat, next: nat)
    requires address + 4 <= mem.Length
    ensures result == Value(mem[..][address..address + 4]) && next == address + 4
  {
    assert mem[..][address..address + 4] == [mem[address], mem[address + 1], mem[address + 2], mem[address + 3]];
    result := Join(mem[address], mem[address + 1], mem[address + 2], mem[address + 3]);
    next := address + 4;
  }

  method LoadModule(mem: array<byte>, address: nat, target: nat) returns (next: nat)
    requires address + 4 <= mem.Length
    requires var size := Value(mem[..][address..address + 4]);
             && address + 4 + size <= mem.Length && target + size <= mem.Length
             && Apart(target, size, address + 4, size)
    modifies mem
    ensures var size := Value(old(mem[..])[address..address + 4]);
            next == address + 4 + size && mem[..] == Copied(old(mem[..]), target, address + 4, size)
  {
    var size, body := ReadUint32(mem, address);
    Memcpy(mem, target, body, size);
    next := body + size;
  }

  /** The targets are inside the memory and disjoint from each other and from the payload. */
  ghost predicate Placed(mods: seq<seq<byte>>, targets: seq<nat>, size: nat, start: nat) {
    && |targets| >= |mods| && start + |Payload(mods)| <= size
    && (forall i :: 0 <= i < |mods| ==>
          targets[i] + |mods[i]| <= size && Apart(targets[i], |mods[i]|, start, |Payload(mods)|))
    && (forall i, j :: 0 <= i < j < |mods| ==> Apart(targets[i], |mods[i]|, targets[j], |mods[j]|))
  }

  ghost predicate AllSmall(mods: seq<seq<byte>>) {
    forall m :: m in mods ==> |m| < WORD32
  }

  ghost predicate Small(mods: seq<seq<byte>>) {
    |mods| < WORD32 && AllSmall(mods)
  }

  /** Address a is outside the targets of the first k modules. */
  ghost predicate Outside(mods: seq<seq<byte>>, targets: seq<nat>, k: nat, a: int)
    requires k <= |mods| <= |targets|
  {
    forall i :: 0 <= i < k ==> a < targets[i] || targets[i] + |mods[i]| <= a
  }

  ghost predicate Holds(mem: seq<byte>, at: nat, m: seq<byte>) {
    at + |m| <= |mem| && mem[at..at + |m|] == m
  }

  /** Memory after the first k modules have been loaded: each is at its target and
      every other byte is as before. */
  ghost predicate Loaded(before: seq<byte>, mem: seq<byte>, mods: seq<seq<byte>>, targets: seq<nat>, k: nat)
    requires k <= |mods| <= |targets|
  {
    && |mem| == |before|
    && (forall i {:trigger Holds(mem, targets[i], mods[i])} :: 0 <= i < k ==> Holds(mem, targets[i], mods[i]))
    && (forall a :: 0 <= a < |mem| && Outside(mods, targets, k, a) ==> mem[a] == before[a])
  }

  lemma SliceMiddle(head: seq<byte>, a: seq<byte>, b: seq<byte>, tail: seq<byte>)
    ensures var p := head + (a + b + tail);
            && p[|head|..|head| + |a|] == a && p[|head| + |a|..|head| + |a| + |b|] == b
  {
  }

  lemma PayloadAround(mods: seq<seq<byte>>, k: nat)
    requires k < |mods|
    ensures Payload(mods)
            == LittleEndian(|mods|) + Entries(mods[..k]) + (LittleEndian(|mods[k]|) + mods[k] + Entries(mods[k + 1..]))
    ensures |Entries(mods[..k + 1])| == |Entries(mods[..k])| + 4 + |mods[k]|
  {
    EntriesSplit(mods, k);
    EntriesSnoc(mods[..k], mods[k]);
    assert mods[..k + 1] == mods[..k] + [mods[k]];
    assert mods[k..][1..] == mods[k + 1..];
  }

  /** Where the entry of module k starts in the payload, and what is there. */
  lemma EntryAt(mods: seq<seq<byte>>, k: nat) returns (at: nat)
    requires k < |mods|
    ensures at == 4 + |Entries(mods[..k])| && at + 4 + |mods[k]| <= |Payload(mods)|
    ensures Payload(mods)[at..at + 4] == LittleEndian(|mods[k]|)
    ensures Payload(mods)[at + 4..at + 4 + |mods[k]|] == mods[k]
    ensures 4 + |Entries(mods[..k + 1])| == at + 4 + |mods[k]|
  {
    at := 4 + |Entries(mods[..k])|;
    PayloadAround(mods, k);
    SliceMiddle(LittleEndian(|mods|) + Entries(mods[..k]), LittleEndian(|mods[k]|), mods[k], Entries(mods[k + 1..]));
  }

  /** A copy spares what lies apart from its destination. */
  lemma HoldsAfterCopy(mem: seq<byte>, dst: nat, src: nat, n: nat, at: nat, x: seq<byte>)
    requires dst + n <= |mem| && src + n <= |mem| && Holds(mem, at, x) && Apart(at, |x|, dst, n)
    ensures Holds(Copied(mem, dst, src, n), at, x)
  {
    var m := Copied(mem, dst, src, n);
    forall i | 0 <= i < |x| ensures m[at..at + |x|][i] == x[i] {
      assert mem[at..at + |x|][i] == x[i];
    }
  }

  /** A copy puts the source at its destination. */
  lemma CopyHolds(mem: seq<byte>, dst: nat, src: nat, x: seq<byte>)
    requires dst + |x| <= |mem| && Holds(mem, src, x)
    ensures Holds(Copied(mem, dst, src, |x|), dst, x)
  {
    var m := Copied(mem, dst, src, |x|);
    forall i | 0 <= i < |x| ensures m[dst..dst + |x|][i] == x[i] {
      assert mem[src..src + |x|][i] == x[i];
    }
  }

  /** Loading one more module keeps the ones already loaded and the payload. */
  lemma LoadOneMore(before: seq<byte>, mem: seq<byte>, mods: seq<seq<byte>>, targets: seq<nat>, k: nat, start: nat,
      src: nat)
    requires k < |mods| && Placed(mods, targets, |before|, start)
    requires Loaded(before, mem, mods, targets, k)
    requires src + |mods[k]| <= |mem| && mem[src..src + |mods[k]|] == mods[k]
    ensures Loaded(before, Copied(mem, targets[k], src, |mods[k]|), mods, targets, k + 1)
  {
    var m := Copied(mem, targets[k], src, |mods[k]|);
    forall i | 0 <= i < k + 1 ensures Holds(m, targets[i], mods[i]) {
      if i < k {
        assert Holds(mem, targets[i], mods[i]) && Apart(targets[i], |mods[i]|, targets[k], |mods[k]|);
        HoldsAfterCopy(mem, targets[k], src, |mods[k]|, targets[i], mods[i]);
      } else {
        CopyHolds(mem, targets[k], src, mods[k]);
      }
    }
    forall a | 0 <= a < |m| && Outside(mods, targets, k + 1, a) ensures m[a] == before[a] {
      assert Outside(mods, targets, k, a);
      assert a < targets[k] || targets[k] + |mods[k]| <= a;
    }
  }

  lemma PayloadStays(before: seq<byte>, mem: seq<byte>, mods: seq<seq<byte>>, targets: seq<nat>, k: nat, start: nat)
    requires k <= |mods| && Placed(mods, targets, |before|, start) && Loaded(before, mem, mods, targets, k)
    ensures mem[start..start + |Payload(mods)|] == before[start..start + |Payload(mods)|]
  {
    forall a | start <= a < start + |Payload(mods)| ensures mem[a] == before[a] {
      assert Outside(mods, targets, k, a);
    }
  }

  lemma SliceOfPayload(mem: seq<byte>, start: nat, payload: seq<byte>, at: nat, x: seq<byte>)
    requires start + |payload| <= |mem| && mem[start..start + |payload|] == payload
    requires at + |x| <= |payload| && payload[at..at + |x|] == x
    ensures mem[start + at..start + at + |x|] == x
  {
    var whole, part := mem[start..start + |payload|], mem[start + at..start + at + |x|];
    forall i | 0 <= i < |x| ensures part[i] == x[i] {
      assert whole[at + i] == payload[at..at + |x|][i];
    }
  }

  /** Entry k of an intact payload in memory. */
  lemma EntryInMemory(mem: seq<byte>, start: nat, mods: seq<seq<byte>>, k: nat) returns (current: nat)
    requires k < |mods| && |mods[k]| < WORD32
    requires start + |Payload(mods)| <= |mem| && mem[start..start + |Payload(mods)|] == Payload(mods)
    ensures current == start + 4 + |Entries(mods[..k])| && current + 4 + |mods[k]| <= start + |Payload(mods)|
    ensures Value(mem[current..current + 4]) == |mods[k]|
    ensures mem[current + 4..current + 4 + |mods[k]|] == mods[k]
    ensures current + 4 + |mods[k]| == start + 4 + |Entries(mods[..k + 1])|
  {
    var at := EntryAt(mods, k);
    current := start + at;
    SliceOfPayload(mem, start, Payload(mods), at, LittleEndian(|mods[k]|));
    SliceOfPayload(mem, start, Payload(mods), at + 4, mods[k]);
    WordHoldsIff(|mods[k]|);
  }

  lemma CountInMemory(mem: seq<byte>, start: nat, mods: seq<seq<byte>>)
    requires |mods| < WORD32
    requires start + |Payload(mods)| <= |mem| && mem[start..start + |Payload(mods)|] == Payload(mods)
    ensures Value(mem[start..start + 4]) == |mods|
  {
    SplitAfter(LittleEndian(|mods|), Entries(mods));
    SliceOfPayload(mem, start, Payload(mods), 0, LittleEndian(|mods|));
    WordHoldsIff(|mods|);
  }

  /** The loader has loaded k modules and its cursor is on the next entry. */
  ghost predicate Progress(before: seq<byte>, mem: seq<byte>, mods: seq<seq<byte>>, targets: seq<nat>, start: nat,
      k: nat, current: nat)
  {
    && k <= |mods| && Placed(mods, targets, |before|, start)
    && before[start..start + |Payload(mods)|] == Payload(mods)
    && Loaded(before, mem, mods, targets, k)
    && current == start + 4 + |Entries(mods[..k])|
  }

  lemma ProgressStep(before: seq<byte>, mem: seq<byte>, after: seq<byte>, mods: seq<seq<byte>>, targets: seq<nat>,
                     start: nat, k: nat, current: nat, next: nat)
    requires k < |mods| && Progress(before, mem, mods, targets, start, k, current)
    requires Loaded(before, after, mods, targets, k + 1) && next == start + 4 + |Entries(mods[..k + 1])|
    ensures Progress(before, after, mods, targets, start, k + 1, next)
  {
  }

  /** What is in front of the cursor. */
  lemma EntryAhead(before: seq<byte>, mem: seq<byte>, mods: seq<seq<byte>>, targets: seq<nat>, start: nat, k: nat,
      current: nat)
    requires k < |mods| && |mods[k]| < WORD32 && Progress(before, mem, mods, targets, start, k, current)
    ensures var size := |mods[k]|;
            && |mem| == |before| && current + 4 + size <= |mem| && targets[k] + size <= |mem|
            && Value(mem[current..current + 4]) == size && mem[current + 4..current + 4 + size] == mods[k]
            && Apart(targets[k], size, current + 4, size)
            && current + 4 + size == start + 4 + |Entries(mods[..k + 1])|
  {
    PayloadStays(before, mem, mods, targets, k, start);
    var here := EntryInMemory(mem, start, mods, k);
    assert Apart(targets[k], |mods[k]|, start, |Payload(mods)|);
  }

  /** Copying it to its target loads it. */
  lemma LoadedAhead(before: seq<byte>, mem: seq<byte>, mods: seq<seq<byte>>, targets: seq<nat>,
                    start: nat, k: nat, current: nat)
    requires k < |mods| && Progress(before, mem, mods, targets, start, k, current)
    requires targets[k] + |mods[k]| <= |mem| && current + 4 + |mods[k]| <= |mem|
    requires mem[current + 4..current + 4 + |mods[k]|] == mods[k]
    ensures Loaded(before, Copied(mem, targets[k], current + 4, |mods[k]|), mods, targets, k + 1)
  {
    LoadOneMore(before, mem, mods, targets, k, start, current + 4);
  }

  /** One turn of the loop of loadModules. */
  method LoadNext(mem: array<byte>, address: nat, target: nat, ghost before: seq<byte>,
                  ghost mods: seq<seq<byte>>, ghost targets: seq<nat>, ghost start: nat, ghost k: nat)
    returns (next: nat)
    requires k < |mods| <= |targets| && target == targets[k] && |mods[k]| < WORD32
    requires Progress(before, mem[..], mods, targets, start, k, address)
    modifies mem
    ensures Progress(before, mem[..], mods, targets, start, k + 1, next)
  {
    ghost var now := mem[..];
    EntryAhead(before, now, mods, targets, start, k, address);
    LoadedAhead(before, now, mods, targets, start, k, address);
    next := LoadModule(mem, address, target);
    ProgressStep(before, now, mem[..], mods, targets, start, k, address, next);
  }

  /** Loading undoes packing: run on a memory that holds the payload of the packer,
      the loader leaves every module at its target and changes nothing else. */
  method LoadModules(mem: array<byte>, payloadStart: nat, targets: seq<nat>, ghost mods: seq<seq<byte>>)
    requires Small(mods) && Placed(mods, targets, mem.Length, payloadStart)
    requires mem[payloadStart..payloadStart + |Payload(mods)|] == Payload(mods)
    modifies mem
    ensures Loaded(old(mem[..]), mem[..], mods, targets, |mods|)
  {
    ghost var before := mem[..];
    CountInMemory(before, payloadStart, mods);
    var moduleCount, current := ReadUint32(mem, payloadStart);
    var i := 0;
    while i < moduleCount
      invariant i <= moduleCount == |mods|
      invariant Progress(before, mem[..], mods, targets, payloadStart, i, current)
    {
      assert mods[i] in mods;
      current := LoadNext(mem, current, targets[i], before, mods, targets, payloadStart, i);
      i := i + 1;
    }
  }

  // ---------------------------------------------------------------- when the format can be read back

  datatype Parse = Failed | Parsed(mods: seq<seq<byte>>)

  /** The modules that a loader finds in n entries. */
  function ParseEntries(bytes: seq<byte>, n: nat): (p: Parse)
    ensures p.Parsed? ==> |p.mods| == n
    decreases n
  {
    if n == 0 then Parsed([])
    else if |bytes| < 4 || |bytes| < 4 + Value(bytes[..4]) then Failed
    else
      var size := Value(bytes[..4]);
      var rest := ParseEntries(bytes[4 + size..], n - 1);
      if rest.Failed? then Failed else Parsed([bytes[4..4 + size]] + rest.mods)
  }

  function ParsePayload(bytes: seq<byte>): Parse {
    if |bytes| < 4 then Failed else ParseEntries(bytes[4..], Value(bytes[..4]))
  }

  /** The first entry: its size field is the size modulo 2^32, its body and the rest follow. */
  lemma FirstEntry(m: seq<byte>, rest: seq<byte>)
    ensures var bytes := Entry(m) + rest;
            && |bytes| >= 4 + |m| && Value(bytes[..4]) == |m| % WORD32
            && bytes[4..4 + |m|] == m && bytes[4 + |m|..] == rest
  {
    var bytes := Entry(m) + rest;
    assert bytes[..4] == LittleEndian(|m|);
    ValueOfLittleEndian(|m|);
  }

  lemma ParseSmallEntry(m: seq<byte>, rest: seq<byte>, n: nat)
    requires |m| < WORD32 && n > 0
    ensures var p := ParseEntries(rest, n - 1);
            ParseEntries(Entry(m) + rest, n) == if p.Failed? then Failed else Parsed([m] + p.mods)
  {
    FirstEntry(m, rest);
  }

  /** A module of 2^32 bytes or more is cut. */
  lemma ParseLargeEntry(m: seq<byte>, rest: seq<byte>, n: nat)
    requires |m| >= WORD32 && n > 0
    ensures var p := ParseEntries(Entry(m) + rest, n); p.Parsed? ==> |p.mods[0]| < |m|
  {
    FirstEntry(m, rest);
  }

  lemma {:induction false} ParseEntriesIff(mods: seq<seq<byte>>)
    ensures ParseEntries(Entries(mods), |mods|) == Parsed(mods) <==> AllSmall(mods)
    decreases |mods|
  {
    if mods != [] {
      var m, tail := mods[0], mods[1..];
      assert mods == [m] + tail;
      if |m| < WORD32 {
        ParseSmallEntry(m, Entries(tail), |mods|);
        ParseEntriesIff(tail);
      } else {
        ParseLargeEntry(m, Entries(tail), |mods|);
        assert m in mods;
      }
    }
  }

  /** What the loader finds at the start of a payload: the number of modules, cut to 32 bits. */
  lemma CountOfPayload(mods: seq<seq<byte>>)
    ensures var bytes := Payload(mods);
            && |bytes| >= 4 && bytes[4..] == Entries(mods)
            && (Value(bytes[..4]) == |mods| <==> |mods| < WORD32)
  {
    SplitAfter(LittleEndian(|mods|), Entries(mods));
    WordHoldsIff(|mods|);
  }

  /** A stream whose entries read back reads back exactly if its count does. */
  lemma ReadBackIff(bytes: seq<byte>, entries: seq<byte>, mods: seq<seq<byte>>)
    requires |bytes| >= 4 && bytes[4..] == entries && (Value(bytes[..4]) == |mods| <==> |mods| < WORD32)
    requires ParseEntries(entries, |mods|) == Parsed(mods) <==> AllSmall(mods)
    ensures ParsePayload(bytes) == Parsed(mods) <==> |mods| < WORD32 && AllSmall(mods)
  {
    assert ParsePayload(bytes) == ParseEntries(entries, Value(bytes[..4]));
  }

  /** A payload reads back as the modules it was packed from exactly when the count
      and all sizes fit in 32 bits. */
  lemma PayloadReadsBackIff(mods: seq<seq<byte>>)
    ensures ParsePayload(Payload(mods)) == Parsed(mods) <==> Small(mods)
  {
    CountOfPayload(mods);
    ParseEntriesIff(mods);
    ReadBackIff(Payload(mods), Entries(mods), mods);
  }
}
