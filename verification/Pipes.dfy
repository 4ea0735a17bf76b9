/** The byte ring of a pipe: two indices that may coincide, and a flag that tells
    a full ring from an empty one. It refines a bounded FIFO queue. */
module Pipes {
  import opened Modular

  const NUL := '\0'

  datatype PipeState = PipeState(bytes: seq<char>, position: nat, end: nat, readFlag: int)

  function Min(a: int, b: int): int { if a < b then a else b }

  /** Steps forward from one ring index to another, less than a lap. */
  function Distance(from: nat, to: nat, size: nat): nat
    requires from < size && to < size
  {
    if to >= from then to - from else to + size - from
  }

  ghost predicate Valid(p: PipeState) {
    && |p.bytes| > 0 && p.position < |p.bytes| && p.end < |p.bytes|
    && (p.readFlag == 0 || p.readFlag == 1)
    && (p.readFlag == 1 ==> p.position == p.end)
  }

  /** `n` bytes of the ring from `from` on. */
  function Span(ring: seq<char>, from: nat, n: nat): (s: seq<char>)
    requires |ring| > 0
    ensures |s| == n
  {
    seq(n, i requires 0 <= i < n => ring[Slot(from + i, |ring|)])
  }

  function Used(p: PipeState): nat
    requires Valid(p)
  {
    if p.readFlag == 1 then |p.bytes| else Distance(p.position, p.end, |p.bytes|)
  }

  /** The queue a pipe stands for: the bytes written and not read yet. */
  function Queue(p: PipeState): seq<char>
    requires Valid(p)
  {
    Span(p.bytes, p.position, Used(p))
  }

  /** With the two indices on the same place, the flag alone tells a full ring from an empty one. */
  lemma FlagTellsFullFromEmpty(p: PipeState)
    requires Valid(p)
    ensures |Queue(p)| == |p.bytes| <==> p.position == p.end && p.readFlag == 1
    ensures Queue(p) == [] <==> p.position == p.end && p.readFlag == 0
  {
    assert Used(p) == |Queue(p)|;
  }

  // ---------------------------------------------------------------- one call

  /** Store text in the ring from `at` on. */
  function Store(ring: seq<char>, at: nat, text: seq<char>): (r: seq<char>)
    requires |ring| > 0
    ensures |r| == |ring|
    decreases |text|
  {
    if text == [] then ring
    else Store(ring, at, text[..|text| - 1])[Slot(at + |text| - 1, |ring|) := text[|text| - 1]]
  }

  /** How far a cursor may go from one index to the other; a full lap when they coincide. */
  function Lap(from: nat, to: nat, size: nat): nat
    requires from < size && to < size
  {
    if from == to then size else Distance(from, to, size)
  }

  /** The state after write and the number of bytes it takes. */
  function Write(p: PipeState, text: seq<char>): (PipeState, nat)
    requires Valid(p)
  {
    if p.position == p.end && p.readFlag == 1 then (p, 0)
    else
      var n := Min(|text|, Lap(p.end, p.position, |p.bytes|));
      var e := Slot(p.end + n, |p.bytes|);
      (PipeState(Store(p.bytes, p.end, text[..n]), p.position, e, if e == p.position then 1 else p.readFlag), n)
  }

  /** The state after read and the bytes it delivers; a count of -1 asks for everything. */
  function Read(p: PipeState, count: int): (PipeState, seq<char>)
    requires Valid(p)
  {
    if p.position == p.end && p.readFlag == 0 then (p, [])
    else
      var wanted := if count == -1 then |p.bytes| else count;
      var n := if wanted <= 0 then 0 else Min(wanted, Lap(p.position, p.end, |p.bytes|));
      (p.(position := Slot(p.position + n, |p.bytes|), readFlag := 0), Span(p.bytes, p.position, n))
  }

  // ---------------------------------------------------------------- the queue behind one call

  lemma {:induction false} StoreAt(ring: seq<char>, at: nat, text: seq<char>, i: nat)
    requires |text| <= |ring| && i < |text|
    ensures Store(ring, at, text)[Slot(at + i, |ring|)] == text[i]
    decreases |text|
  {
    var last := |text| - 1;
    if i < last {
      StoreAt(ring, at, text[..last], i);
      SlotsDiffer(at + i, at + last, |ring|);
    }
  }

  lemma StoreNext(ring: seq<char>, at: nat, text: seq<char>, n: nat)
    requires |ring| > 0 && n < |text|
    ensures Store(ring, at, text[..n + 1]) == Store(ring, at, text[..n])[Slot(at + n, |ring|) := text[n]]
  {
    assert text[..n + 1][..n] == text[..n];
  }

  lemma {:induction false} StoreElsewhere(ring: seq<char>, at: nat, text: seq<char>, k: nat)
    requires |text| <= |ring| && at + |text| <= k < at + |ring|
    ensures Store(ring, at, text)[Slot(k, |ring|)] == ring[Slot(k, |ring|)]
    decreases |text|
  {
    if text != [] {
      StoreElsewhere(ring, at, text[..|text| - 1], k);
      SlotsDiffer(at + |text| - 1, k, |ring|);
    }
  }

  lemma SpanOfStored(ring: seq<char>, at: nat, text: seq<char>)
    requires 0 < |ring| && |text| <= |ring|
    ensures Span(Store(ring, at, text), at, |text|) == text
  {
    forall i | 0 <= i < |text| ensures Span(Store(ring, at, text), at, |text|)[i] == text[i] {
      StoreAt(ring, at, text, i);
    }
  }

  lemma SpanSplit(ring: seq<char>, from: nat, a: nat, b: nat)
    requires |ring| > 0
    ensures Span(ring, from, a + b) == Span(ring, from, a) + Span(ring, from + a, b)
  {
  }

  lemma SpanModulo(ring: seq<char>, from: nat, n: nat)
    requires |ring| > 0
    ensures Span(ring, Slot(from, |ring|), n) == Span(ring, from, n)
  {
    forall i | 0 <= i < n ensures Span(ring, Slot(from, |ring|), n)[i] == Span(ring, from, n)[i] {
      SlotPlus(from, i, |ring|);
    }
  }

  /** The bytes in front of a store are not touched by it. */
  lemma SpanBeforeStored(ring: seq<char>, from: nat, used: nat, text: seq<char>)
    requires 0 < |ring| && used + |text| <= |ring|
    ensures Span(Store(ring, from + used, text), from, used) == Span(ring, from, used)
  {
    var stored := Store(ring, from + used, text);
    forall i | 0 <= i < used ensures Span(stored, from, used)[i] == Span(ring, from, used)[i] {
      StoreElsewhere(ring, from + used, text, from + i + |ring|);
      assert Slot(from + i + |ring|, |ring|) == Slot(from + i, |ring|);
    }
  }

  lemma {:induction false} StoreModulo(ring: seq<char>, at: nat, text: seq<char>)
    requires |ring| > 0
    ensures Store(ring, Slot(at, |ring|), text) == Store(ring, at, text)
    decreases |text|
  {
    if text != [] {
      StoreModulo(ring, at, text[..|text| - 1]);
      SlotPlus(at, |text| - 1, |ring|);
    }
  }

  /** The write index follows the queue. */
  lemma EndIndex(p: PipeState)
    requires Valid(p)
    ensures p.end == Slot(p.position + Used(p), |p.bytes|)
    ensures Used(p) <= |p.bytes|
    ensures !(p.position == p.end && p.readFlag == 1) ==> Lap(p.end, p.position, |p.bytes|) == |p.bytes| - Used(p)
    ensures !(p.position == p.end && p.readFlag == 0) ==> Lap(p.position, p.end, |p.bytes|) == Used(p)
  {
  }

  /** Where an index lands after some steps, at most a lap. */
  lemma Landing(position: nat, total: nat, size: nat)
    requires position < size && 0 < total <= size
    ensures Slot(position + total, size) == position <==> total == size
    ensures total < size ==> Distance(position, Slot(position + total, size), size) == total
  {
  }

  lemma SpanAfterStore(ring: seq<char>, from: nat, used: nat, text: seq<char>)
    requires 0 < |ring| && used + |text| <= |ring|
    ensures Span(Store(ring, from + used, text), from, used + |text|) == Span(ring, from, used) + text
  {
    SpanSplit(Store(ring, from + used, text), from, used, |text|);
    SpanOfStored(ring, from + used, text);
    SpanBeforeStored(ring, from, used, text);
  }

  lemma SpanAfterStoreAt(ring: seq<char>, from: nat, used: nat, at: nat, text: seq<char>)
    requires 0 < |ring| && used + |text| <= |ring| && at == Slot(from + used, |ring|)
    ensures Span(Store(ring, at, text), from, used + |text|) == Span(ring, from, used) + text
  {
    StoreModulo(ring, from + used, text);
    SpanAfterStore(ring, from, used, text);
  }

  /** The indices and the flag after n >= 1 bytes have been stored. */
  lemma IndicesAfterWrite(p: PipeState, text: seq<char>)
    requires Valid(p) && text != [] && Used(p) < |p.bytes|
    ensures var (q, n) := Write(p, text);
            && n == Min(|text|, |p.bytes| - Used(p)) && Valid(q) && Used(q) == Used(p) + n
  {
    EndIndex(p);
    var n := Write(p, text).1;
    SlotPlus(p.position + Used(p), n, |p.bytes|);
    Landing(p.position, Used(p) + n, |p.bytes|);
  }

  /** write appends the longest prefix that fits, except when an empty text meets an
      empty pipe: then the flag is raised and the pipe claims a lap of stale bytes. */
  lemma WriteAppendsIff(p: PipeState, text: seq<char>)
    requires Valid(p)
    ensures var (q, n) := Write(p, text);
            && Valid(q) && |q.bytes| == |p.bytes|
            && n == Min(|text|, |p.bytes| - |Queue(p)|)
            && (Queue(q) == Queue(p) + text[..n] <==> !(text == [] && p.position == p.end && p.readFlag == 0))
  {
    EndIndex(p);
    var (q, n) := Write(p, text);
    if text != [] && Used(p) < |p.bytes| {
      IndicesAfterWrite(p, text);
      SpanAfterStoreAt(p.bytes, p.position, Used(p), p.end, text[..n]);
    }
  }

  /** read takes the oldest bytes, as many as asked for and present, except when a
      count that is neither positive nor -1 meets a full pipe: then everything is lost. */
  lemma ReadTakesIff(p: PipeState, count: int)
    requires Valid(p)
    ensures var (q, out) := Read(p, count);
            && Valid(q) && |q.bytes| == |p.bytes|
            && |out| == (if count == -1 then |Queue(p)| else if count <= 0 then 0 else Min(count, |Queue(p)|))
            && (Queue(p) == out + Queue(q) <==> count >= 1 || count == -1 || p.readFlag == 0)
  {
    EndIndex(p);
    var (q, out) := Read(p, count);
    if |out| > 0 {
      TakeFront(p, |out|);
    }
  }

  /** Moving the read index n steps on takes n bytes off the front of the queue. */
  lemma TakeFront(p: PipeState, n: nat)
    requires Valid(p) && 0 < n <= Used(p)
    ensures var q := p.(position := Slot(p.position + n, |p.bytes|), readFlag := 0);
            Valid(q) && Queue(p) == Span(p.bytes, p.position, n) + Queue(q)
  {
    EndIndex(p);
    SpanSplit(p.bytes, p.position, n, Used(p) - n);
    SpanModulo(p.bytes, p.position + n, Used(p) - n);
    if n < Used(p) {
      Landing(p.position, Used(p), |p.bytes|);
      RemainingDistance(p.position, n, Used(p), |p.bytes|);
    }
  }

  lemma RemainingDistance(position: nat, n: nat, used: nat, size: nat)
    requires position < size && 0 < n < used <= size
    ensures Distance(Slot(position + n, size), Slot(position + used, size), size) == used - n
  {
    SlotPlus(position + n, used - n, size);
    Landing(Slot(position + n, size), used - n, size);
  }

  // ---------------------------------------------------------------- the object

  /** The text of a NUL-terminated buffer. */
  function Text(message: seq<char>): (t: seq<char>)
    requires NUL in message
    ensures |t| < |message| && t == message[..|t|] && message[|t|] == NUL && NUL !in t
  {
    if message[0] == NUL then [] else [message[0]] + Text(message[1..])
  }

  /** The NUL is met exactly at the end of the text. */
  lemma TextEnds(message: seq<char>, i: nat)
    requires NUL in message && i <= |Text(message)|
    ensures message[i] == NUL <==> i == |Text(message)|
  {
    var t := Text(message);
    if i < |t| {
      assert t[i] in t && t[i] == message[i];
    }
  }

  /** The C expression k % size. */
  method Modulo(k: nat, size: nat) returns (r: nat)
    requires size > 0
    ensures r == Slot(k, size)
  {
    SlotIsMod(k, size);
    r := k % size;
  }

  /** A cursor that has gone n steps from one index, at most the lap to the other,
      and stands on the other exactly at the end of the lap. */
  ghost predicate Cursor(from: nat, n: nat, to: nat, size: nat, at: nat) {
    && from < size && to < size && at == Slot(from + n, size)
    && n <= Lap(from, to, size)
    && (n > 0 ==> (at == to <==> n == Lap(from, to, size)))
  }

  lemma CursorStep(from: nat, n: nat, to: nat, size: nat, at: nat)
    requires Cursor(from, n, to, size, at) && (at != to || n == 0)
    ensures Cursor(from, n + 1, to, size, if at + 1 == size then 0 else at + 1)
  {
    SlotNext(from + n, size);
    Landing(from, n + 1, size);
  }

  /** One turn of the loop of write: the next byte of the text goes where the cursor stands. */
  lemma StoreStep(message: seq<char>, ring: seq<char>, end: nat, bytes: nat, position: nat, ahead: nat)
    requires NUL in message && bytes <= |Text(message)| && message[bytes] != NUL
    requires Cursor(end, bytes, position, |ring|, ahead) && (ahead != position || bytes == 0)
    ensures bytes < |Text(message)| && message[bytes] == Text(message)[bytes]
    ensures Store(ring, end, Text(message)[..bytes + 1])
            == Store(ring, end, Text(message)[..bytes])[ahead := message[bytes]]
    ensures Cursor(end, bytes + 1, position, |ring|, if ahead + 1 == |ring| then 0 else ahead + 1)
  {
    TextEnds(message, bytes);
    StoreNext(ring, end, Text(message), bytes);
    CursorStep(end, bytes, position, |ring|, ahead);
  }

  /** The result buffer with n bytes of the ring at its front. */
  function Delivered(result: seq<char>, ring: seq<char>, from: nat, n: nat): (r: seq<char>)
    requires |ring| > 0
    ensures |r| == |result|
  {
    seq(|result|, k requires 0 <= k < |result| => if k < n then ring[Slot(from + k, |ring|)] else result[k])
  }

  lemma DeliveredNext(result: seq<char>, ring: seq<char>, from: nat, n: nat)
    requires |ring| > 0 && n < |result|
    ensures Delivered(result, ring, from, n + 1) == Delivered(result, ring, from, n)[n := ring[Slot(from + n, |ring|)]]
  {
  }

  lemma DeliveredIsSpan(result: seq<char>, ring: seq<char>, from: nat, n: nat)
    requires |ring| > 0 && n <= |result|
    ensures Delivered(result, ring, from, n) == Span(ring, from, n) + result[n..]
  {
  }

  class Pipe {
    const pipe: array<char>
    var position: nat
    var end: nat
    var readFlag: int

    function View(): PipeState
      reads this, pipe
    {
      PipeState(pipe[..], position, end, readFlag)
    }

    constructor (length: nat)
      requires length > 0
      ensures Valid(View()) && pipe.Length == length && Queue(View()) == [] && readFlag == 0
    {
      pipe := new char[length];
      position, end, readFlag := 0, 0, 0;
    }

    method Next(aux: nat) returns (following: nat)
      requires aux < pipe.Length
      ensures following == if aux + 1 == pipe.Length then 0 else aux + 1
    {
      following := aux + 1;
      if following == pipe.Length {
        following := 0;
      }
    }

    /** One byte into the ring, and the cursor on the next one. */
    method Put(aux: nat, c: char) returns (following: nat)
      requires aux < pipe.Length
      modifies pipe
      ensures pipe[..] == old(pipe[..])[aux := c]
      ensures following == if aux + 1 == pipe.Length then 0 else aux + 1
    {
      pipe[aux] := c;
      following := Next(aux);
    }

    /** The loop of write: it stops at the NUL or when the cursor meets the read index. */
    method StoreMessage(message: seq<char>) returns (bytes: nat)
      requires Valid(View()) && NUL in message
      modifies pipe
      ensures bytes == Min(|Text(message)|, Lap(end, position, pipe.Length))
      ensures pipe[..] == Store(old(pipe[..]), end, Text(message)[..bytes])
    {
      ghost var text, start := Text(message), pipe[..];
      var aux, ahead := end, end;
      bytes := 0;
      while message[bytes] != NUL && (ahead != position || bytes == 0)
        invariant bytes <= |text| && aux == ahead
        invariant Cursor(end, bytes, position, pipe.Length, ahead)
        invariant pipe[..] == Store(start, end, text[..bytes])
        decreases |text| - bytes
      {
        StoreStep(message, start, end, bytes, position, ahead);
        aux := Put(aux, message[bytes]);
        bytes := bytes + 1;
        ahead := Modulo(end + bytes, pipe.Length);
      }
      TextEnds(message, bytes);
    }

    /** write, for a caller that does not have to wait for the pipe's mutex. */
    method WriteMessage(message: seq<char>) returns (bytes: nat)
      requires Valid(View()) && NUL in message
      modifies this, pipe
      ensures (View(), bytes) == Write(old(View()), Text(message))
    {
      if position == end && readFlag == 1 {
        return 0;
      }
      bytes := StoreMessage(message);
      end := Modulo(end + bytes, pipe.Length);
      if end == position {
        readFlag := 1;
      }
    }

    /** One byte of the ring into the result, and the cursor on the next one. */
    method Get(result: array<char>, i: nat, aux: nat) returns (following: nat)
      requires aux < pipe.Length && i < result.Length && result != pipe
      modifies result
      ensures result[..] == old(result[..])[i := pipe[aux]]
      ensures following == if aux + 1 == pipe.Length then 0 else aux + 1
    {
      result[i] := pipe[aux];
      following := Next(aux);
    }

    /** One turn of the loop of read. */
    method Fetch(result: array<char>, i: nat, aux: nat, ghost before: seq<char>) returns (following: nat)
      requires Valid(View()) && result != pipe && i < result.Length == |before|
      requires Cursor(position, i, end, pipe.Length, aux) && (aux != end || i == 0)
      requires result[..] == Delivered(before, pipe[..], position, i)
      modifies result
      ensures result[..] == Delivered(before, pipe[..], position, i + 1)
      ensures Cursor(position, i + 1, end, pipe.Length, following)
    {
      DeliveredNext(before, pipe[..], position, i);
      CursorStep(position, i, end, pipe.Length, aux);
      following := Get(result, i, aux);
    }

    /** The loop of read: it stops at the count or when the cursor meets the write index. */
    method FetchBytes(result: array<char>, wanted: int) returns (i: nat)
      requires Valid(View()) && result != pipe && result.Length >= wanted
      modifies result
      ensures i == if wanted <= 0 then 0 else Min(wanted, Lap(position, end, pipe.Length))
      ensures i <= result.Length && result[..] == Delivered(old(result[..]), pipe[..], position, i)
    {
      ghost var before := result[..];
      var aux, ahead := position, position;
      i := 0;
      while i < wanted && (ahead != end || i == 0)
        invariant (wanted <= 0 ==> i == 0) && (wanted > 0 ==> i <= wanted) && i <= result.Length
        invariant aux == ahead && Cursor(position, i, end, pipe.Length, ahead)
        invariant result[..] == Delivered(before, pipe[..], position, i)
        decreases wanted - i
      {
        aux := Fetch(result, i, aux, before);
        i := i + 1;
        ahead := Modulo(position + i, pipe.Length);
      }
    }

    /** read, for a caller that does not have to wait for the pipe's mutex. */
    method ReadInto(result: array<char>, bytes: int) returns (i: nat)
      requires Valid(View()) && result != pipe
      requires result.Length >= if bytes == -1 then pipe.Length else bytes
      modifies this, result
      ensures View() == Read(old(View()), bytes).0
      ensures i == |Read(old(View()), bytes).1| && i <= result.Length
      ensures result[..] == Read(old(View()), bytes).1 + old(result[..])[i..]
    {
      if position == end && readFlag == 0 {
        return 0;
      }
      ghost var before := result[..];
      i := FetchBytes(result, if bytes == -1 then pipe.Length else bytes);
      DeliveredIsSpan(before, pipe[..], position, i);
      position := Modulo(position + i, pipe.Length);
      readFlag := 0;
    }
  }

  // ---------------------------------------------------------------- runs

  datatype Call = WriteText(text: seq<char>) | ReadCount(count: int)

  datatype Log = Log(p: PipeState, accepted: seq<char>, delivered: seq<char>)

  function Perform(g: Log, call: Call): Log
    requires Valid(g.p)
  {
    match call
    case WriteText(text) =>
      var (q, n) := Write(g.p, text);
      Log(q, g.accepted + text[..Min(n, |text|)], g.delivered)
    case ReadCount(count) =>
      var (q, out) := Read(g.p, count);
      Log(q, g.accepted, g.delivered + out)
  }

  predicate Proper(call: Call) {
    match call
    case WriteText(text) => text != []
    case ReadCount(count) => count >= 1 || count == -1
  }

  lemma PerformKeepsOrder(g: Log, call: Call)
    requires Valid(g.p) && Proper(call) && g.delivered + Queue(g.p) == g.accepted
    ensures Valid(Perform(g, call).p) && |Perform(g, call).p.bytes| == |g.p.bytes|
    ensures Perform(g, call).delivered + Queue(Perform(g, call).p) == Perform(g, call).accepted
  {
    match call
    case WriteText(text) =>
      WriteAppendsIff(g.p, text);
      var (q, n) := Write(g.p, text);
      assert g.delivered + (Queue(g.p) + text[..n]) == g.accepted + text[..n];
    case ReadCount(count) =>
      ReadTakesIff(g.p, count);
      var (q, out) := Read(g.p, count);
      assert g.delivered + (out + Queue(q)) == (g.delivered + out) + Queue(q);
  }

  ghost function RunCalls(g: Log, calls: seq<Call>): Log
    decreases |calls|
  {
    if calls == [] || !Valid(g.p) then g else RunCalls(Perform(g, calls[0]), calls[1..])
  }

  /** Over every run of non-empty writes and proper reads, the bytes delivered
      followed by the bytes still queued are the bytes accepted. */
  lemma {:induction false} PipeIsFifo(g: Log, calls: seq<Call>)
    requires Valid(g.p) && g.delivered + Queue(g.p) == g.accepted
    requires forall c :: c in calls ==> Proper(c)
    ensures var z := RunCalls(g, calls);
            Valid(z.p) && |z.p.bytes| == |g.p.bytes| && z.delivered + Queue(z.p) == z.accepted
    decreases |calls|
  {
    if calls != [] {
      PerformKeepsOrder(g, calls[0]);
      PipeIsFifo(Perform(g, calls[0]), calls[1..]);
    }
  }
}
