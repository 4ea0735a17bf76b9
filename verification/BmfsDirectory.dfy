/** The directory of a BMFS disk and the first-fit search for a new contiguous file. */
module BmfsDirectory {
  import opened Basics

  const RECORDS := 64
  const NAME_BYTES := 32

  /** A directory record. `name` is the raw 32-byte field. */
  datatype Record = Record(name: seq<byte>, start: nat, reserved: nat, size: nat)

  predicate IsEnd(r: Record) { r.name != [] && r.name[0] == 0 }
  predicate IsDeleted(r: Record) { r.name != [] && r.name[0] == 1 }
  predicate IsLive(r: Record) { !IsEnd(r) && !IsDeleted(r) }

  function Stop(r: Record): nat { r.start + r.reserved }

  /** The same as an unsigned 64-bit sum. */
  function NextEnd(r: Record): nat { Stop(r) % WORD64 }

  lemma NextEndIsStop(r: Record, last: nat)
    requires Stop(r) <= last < WORD32 / 2
    ensures NextEnd(r) == Stop(r)
  {
  }

  // ---------------------------------------------------------------- names

  /** The C string in a field: the bytes before the first NUL. */
  function Text(field: seq<byte>): (t: seq<byte>)
    ensures 0 !in t && |t| <= |field|
  {
    if field == [] || field[0] == 0 then [] else [field[0]] + Text(field[1..])
  }

  /** strcpy into a field: the name, a NUL, and what was behind it before. */
  function StrCpy(field: seq<byte>, name: seq<byte>): (f: seq<byte>)
    requires |name| < |field|
    ensures |f| == |field|
  {
    name + [0] + field[|name| + 1..]
  }

  /** A name of at most 31 characters that does not look like a marker. */
  predicate ValidName(name: seq<byte>) {
    0 < |name| < NAME_BYTES && 0 !in name && name[0] != 1
  }

  lemma {:induction false} TextOfCopy(field: seq<byte>, name: seq<byte>)
    requires |name| < |field| && 0 !in name
    ensures Text(StrCpy(field, name)) == name
    decreases |name|
  {
    var f := StrCpy(field, name);
    if name != [] {
      TextOfCopy(field[1..], name[1..]);
      assert f[1..] == StrCpy(field[1..], name[1..]);
    }
  }

  // ---------------------------------------------------------------- scanning the directory

  /** Index of the end marker, or |dir|. */
  function EndIndex(dir: seq<Record>): (e: nat)
    ensures e <= |dir|
    ensures forall i :: 0 <= i < e ==> !IsEnd(dir[i])
    ensures e < |dir| ==> IsEnd(dir[e])
  {
    if dir == [] || IsEnd(dir[0]) then 0 else 1 + EndIndex(dir[1..])
  }

  predicate Named(r: Record, name: seq<byte>) { IsLive(r) && Text(r.name) == name }

  /** findfile: index of the live record with that name before the end marker, or |dir|. */
  function FindFile(dir: seq<Record>, name: seq<byte>): (i: nat)
    ensures i <= |dir|
    ensures forall k :: 0 <= k < i && k < EndIndex(dir) ==> !Named(dir[k], name)
    ensures i < |dir| ==> i < EndIndex(dir) && Named(dir[i], name)
  {
    if dir == [] then 0
    else if IsEnd(dir[0]) then |dir|
    else if Named(dir[0], name) then 0
    else 1 + FindFile(dir[1..], name)
  }

  /** Number of used or deleted records as create counts them: 0 when the marker is missing. */
  function NumUsed(dir: seq<Record>): (n: nat)
    ensures n <= |dir|
  {
    if EndIndex(dir) < |dir| then EndIndex(dir) else 0
  }

  /** Where create puts a new record: the first deleted one before the end marker, or
      the marker itself; |dir| when there is neither. */
  function FreeEntry(dir: seq<Record>): (i: nat)
    ensures i <= EndIndex(dir)
    ensures forall k :: 0 <= k < i ==> !IsDeleted(dir[k])
    ensures i < EndIndex(dir) ==> IsDeleted(dir[i])
  {
    if dir == [] || IsEnd(dir[0]) || IsDeleted(dir[0]) then 0 else 1 + FreeEntry(dir[1..])
  }

  // ---------------------------------------------------------------- sorting

  /** An unsigned 64-bit value converted to a signed 32-bit int. */
  function ToInt(x: nat): int {
    var low := x % WORD32;
    if low < WORD32 / 2 then low else low - WORD32
  }

  /** StartingBlockCmp. */
  function StartingBlockCmp(a: Record, b: Record): int {
    if IsDeleted(a) then 1
    else if IsDeleted(b) then -1
    else ToInt((a.start - b.start) % WORD64)
  }

  /** On disks below 2^31 blocks the truncated difference has the right sign. */
  lemma CmpOrdersByStart(a: Record, b: Record)
    requires !IsDeleted(a) && !IsDeleted(b) && a.start < WORD32 / 2 && b.start < WORD32 / 2
    ensures StartingBlockCmp(a, b) < 0 <==> a.start < b.start
    ensures StartingBlockCmp(a, b) == 0 <==> a.start == b.start
  {
    var d := a.start - b.start;
    if d >= 0 {
      assert d % WORD64 == d;
    } else {
      assert d % WORD64 == d + WORD64;
      assert (d + WORD64) % WORD32 == d + WORD32;
    }
  }

  predicate Before(a: Record, b: Record) {
    IsDeleted(b) || (!IsDeleted(a) && a.start <= b.start)
  }

  ghost predicate Sorted(s: seq<Record>) {
    forall i, j :: 0 <= i < j < |s| ==> Before(s[i], s[j])
  }

  /** What qsort with StartingBlockCmp may return: live records by starting block,
      deleted ones behind them in any order. */
  ghost predicate IsSortOf(s: seq<Record>, recs: seq<Record>) {
    multiset(s) == multiset(recs) && Sorted(s)
  }

  // ---------------------------------------------------------------- the gap search

  /** The unsigned subtraction of the gap test. */
  function Gap(thisStart: nat, prevEnd: nat): nat {
    (thisStart - prevEnd) % WORD64
  }

  /** The loop of create from record i of the sorted copy on. */
  function SearchGap(s: seq<Record>, i: nat, prevEnd: nat, requested: nat, last: nat): Option<nat>
    requires i <= |s|
    decreases |s| - i
  {
    var thisStart := if i == |s| || IsDeleted(s[i]) then last else s[i].start;
    if Gap(thisStart, prevEnd) >= requested then Some(prevEnd)
    else if i < |s| then SearchGap(s, i + 1, NextEnd(s[i]), requested, last)
    else None
  }

  ghost predicate Overlap(r: Record, start: nat, blocks: nat) {
    r.start < start + blocks && start < Stop(r)
  }

  /** Blocks start..start+blocks lie in the data area and touch no live file. */
  ghost predicate Free(recs: seq<Record>, start: nat, blocks: nat, last: nat) {
    && 1 <= start && start + blocks <= last
    && forall r :: r in recs && IsLive(r) ==> !Overlap(r, start, blocks)
  }

  /** The files of a directory: inside the data area and pairwise disjoint. */
  ghost predicate Extents(recs: seq<Record>, last: nat) {
    && 1 <= last < WORD32 / 2
    && (forall r :: r in recs ==> !IsEnd(r) && 1 <= r.start && 1 <= r.reserved && Stop(r) <= last)
    && (forall i, j :: 0 <= i < j < |recs| && IsLive(recs[i]) && IsLive(recs[j]) ==>
          !Overlap(recs[i], recs[j].start, recs[j].reserved))
  }

  ghost predicate Roomy(r: Record, requested: nat, last: nat) {
    IsDeleted(r) && Stop(r) + requested <= last
  }

  // Sorting keeps the extents: two live records of the sorted copy are two records of
  // the directory.

  lemma SameMembers(s: seq<Record>, recs: seq<Record>)
    requires multiset(s) == multiset(recs)
    ensures forall r :: r in s <==> r in recs
  {
    forall r ensures r in s <==> r in recs {
      assert r in s <==> r in multiset(s);
      assert r in recs <==> r in multiset(recs);
    }
  }

  lemma {:induction false} CountOfLive(recs: seq<Record>, last: nat, r: Record)
    requires Extents(recs, last) && IsLive(r)
    ensures multiset(recs)[r] <= 1
    decreases |recs|
  {
    if recs != [] {
      var tail := recs[1..];
      assert recs == [recs[0]] + tail;
      assert Extents(tail, last);
      CountOfLive(tail, last, r);
      if recs[0] == r {
        forall j | 0 <= j < |tail| ensures tail[j] != r {
          assert IsLive(tail[j]) ==> !Overlap(recs[0], recs[j + 1].start, recs[j + 1].reserved);
          assert r in recs;
        }
        assert r !in tail;
      }
    }
  }

  lemma CountTwo(s: seq<Record>, i: nat, j: nat)
    requires i < j < |s| && s[i] == s[j]
    ensures multiset(s)[s[i]] >= 2
  {
    assert s == s[..j] + [s[j]] + s[j + 1..];
    assert s[i] in s[..j];
    assert multiset(s) == multiset(s[..j]) + multiset{s[j]} + multiset(s[j + 1..]);
    assert multiset(s[..j])[s[i]] >= 1;
  }

  lemma SortedExtents(s: seq<Record>, recs: seq<Record>, last: nat)
    requires IsSortOf(s, recs) && Extents(recs, last)
    ensures Extents(s, last)
  {
    SameMembers(s, recs);
    forall i, j | 0 <= i < j < |s| && IsLive(s[i]) && IsLive(s[j])
      ensures !Overlap(s[i], s[j].start, s[j].reserved)
    {
      if s[i] == s[j] {
        CountTwo(s, i, j);
        CountOfLive(recs, last, s[i]);
      }
      assert s[i] in s && s[j] in s;
      assert s[i] in recs && s[j] in recs;
      var a :| 0 <= a < |recs| && recs[a] == s[i];
      var b :| 0 <= b < |recs| && recs[b] == s[j];
      if a < b {
        assert !Overlap(recs[a], recs[b].start, recs[b].reserved);
      } else {
        assert !Overlap(recs[b], recs[a].start, recs[a].reserved);
      }
    }
  }

  /** In the sorted copy a live file ends before the next one starts. */
  lemma SortedStops(s: seq<Record>, last: nat, i: nat, j: nat)
    requires Sorted(s) && Extents(s, last) && i < j < |s| && IsLive(s[j])
    ensures IsLive(s[i]) && Stop(s[i]) <= s[j].start
  {
    assert Before(s[i], s[j]);
    assert s[i] in s && s[j] in s;
    assert !Overlap(s[i], s[j].start, s[j].reserved);
  }

  lemma NoWrap(thisStart: nat, prevEnd: nat, last: nat)
    requires prevEnd <= thisStart <= last < WORD32 / 2
    ensures Gap(thisStart, prevEnd) == thisStart - prevEnd
  {
  }

  /** All starts below prevEnd have been ruled out and records before i end by then. */
  ghost predicate Ruled(s: seq<Record>, i: nat, prevEnd: nat, requested: nat, last: nat) {
    && i <= |s| && 1 <= prevEnd <= last
    && (forall k :: 0 <= k < i ==> IsLive(s[k]) && Stop(s[k]) <= prevEnd)
    && (forall k :: i <= k < |s| && IsLive(s[k]) ==> prevEnd <= s[k].start)
    && (forall p: nat :: p < prevEnd ==> !Free(s, p, requested, last))
  }

  /** One live record that leaves no room in front of it. */
  lemma RuleOut(s: seq<Record>, i: nat, prevEnd: nat, requested: nat, last: nat)
    requires Sorted(s) && Extents(s, last) && Ruled(s, i, prevEnd, requested, last) && requested >= 1
    requires i < |s| && IsLive(s[i]) && s[i].start - prevEnd < requested
    ensures Ruled(s, i + 1, Stop(s[i]), requested, last)
  {
    assert s[i] in s;
    forall k | i + 1 <= k < |s| && IsLive(s[k]) ensures Stop(s[i]) <= s[k].start {
      SortedStops(s, last, i, k);
    }
    forall p: nat | p < Stop(s[i]) ensures !Free(s, p, requested, last) {
      if p >= prevEnd {
        assert Overlap(s[i], p, requested);
      }
    }
  }

  /** Room in front of record i, or behind the last live one. */
  lemma RoomFound(s: seq<Record>, i: nat, prevEnd: nat, requested: nat, last: nat, thisStart: nat)
    requires Sorted(s) && Extents(s, last) && Ruled(s, i, prevEnd, requested, last)
    requires thisStart == if i < |s| && IsLive(s[i]) then s[i].start else last
    requires thisStart - prevEnd >= requested
    ensures Free(s, prevEnd, requested, last)
  {
    forall r | r in s && IsLive(r) ensures !Overlap(r, prevEnd, requested) {
      var k :| 0 <= k < |s| && s[k] == r;
      if k > i {
        SortedStops(s, last, i, k);
      }
    }
    if i < |s| {
      assert s[i] in s;
    }
  }

  /** After the last live record without a gap: nothing is free. */
  lemma NothingFree(s: seq<Record>, i: nat, prevEnd: nat, requested: nat, last: nat)
    requires Ruled(s, i, prevEnd, requested, last) && last - prevEnd < requested
    ensures forall p: nat :: !Free(s, p, requested, last)
  {
  }

  /** Among the deleted records the search stops at the first with room behind it. */
  lemma {:induction false} SearchDeleted(s: seq<Record>, i: nat, prevEnd: nat, requested: nat, last: nat)
    requires Extents(s, last) && i <= |s| && prevEnd <= last && (forall k :: i <= k < |s| ==> IsDeleted(s[k]))
    ensures var found := SearchGap(s, i, prevEnd, requested, last);
            && (found.None? <==>
                  last - prevEnd < requested && forall k :: i <= k < |s| ==> !Roomy(s[k], requested, last))
            && (found.Some? ==> found.value == prevEnd || exists k :: i <= k < |s| && found.value == Stop(s[k]))
    decreases |s| - i
  {
    NoWrap(last, prevEnd, last);
    if i < |s| && last - prevEnd < requested {
      assert s[i] in s;
      NextEndIsStop(s[i], last);
      SearchDeleted(s, i + 1, Stop(s[i]), requested, last);
      assert Roomy(s[i], requested, last) <==> last - Stop(s[i]) >= requested;
    }
  }

  /** What the search promises: the lowest free place if there is one. Without any, it
      fails exactly when no deleted record has room behind it; otherwise it answers
      with a place that is not free. */
  ghost predicate Answer(s: seq<Record>, requested: nat, last: nat, found: Option<nat>) {
    if exists p: nat :: Free(s, p, requested, last) then
      && found.Some? && Free(s, found.value, requested, last)
      && forall p: nat :: p < found.value ==> !Free(s, p, requested, last)
    else
      found.None? <==> forall r :: r in s ==> !Roomy(r, requested, last)
  }

  /** Behind the last live record. */
  lemma SearchBehindFiles(s: seq<Record>, i: nat, prevEnd: nat, requested: nat, last: nat)
    requires Sorted(s) && Extents(s, last) && Ruled(s, i, prevEnd, requested, last) && requested >= 1
    requires i < |s| ==> !IsLive(s[i])
    ensures Answer(s, requested, last, SearchGap(s, i, prevEnd, requested, last))
  {
    NoWrap(last, prevEnd, last);
    DeletedFrom(s, i);
    if last - prevEnd >= requested {
      RoomFound(s, i, prevEnd, requested, last, last);
    } else {
      NothingFree(s, i, prevEnd, requested, last);
      SearchDeleted(s, i, prevEnd, requested, last);
      forall r | r in s ensures Roomy(r, requested, last) ==> exists k :: i <= k < |s| && Roomy(s[k], requested, last) {
        var k :| 0 <= k < |s| && s[k] == r;
        assert k < i ==> IsLive(s[k]);
      }
      forall k | i <= k < |s| ensures s[k] in s {
      }
    }
  }

  lemma {:induction false} SearchFromRuled(s: seq<Record>, i: nat, prevEnd: nat, requested: nat, last: nat)
    requires Sorted(s) && Extents(s, last) && Ruled(s, i, prevEnd, requested, last) && requested >= 1
    ensures Answer(s, requested, last, SearchGap(s, i, prevEnd, requested, last))
    decreases |s| - i
  {
    if i == |s| || !IsLive(s[i]) {
      SearchBehindFiles(s, i, prevEnd, requested, last);
    } else {
      assert s[i] in s;
      NoWrap(s[i].start, prevEnd, last);
      if s[i].start - prevEnd >= requested {
        RoomFound(s, i, prevEnd, requested, last, s[i].start);
      } else {
        NextEndIsStop(s[i], last);
        RuleOut(s, i, prevEnd, requested, last);
        SearchFromRuled(s, i + 1, Stop(s[i]), requested, last);
      }
    }
  }

  lemma DeletedFrom(s: seq<Record>, i: nat)
    requires Sorted(s) && i <= |s| && (forall r :: r in s ==> !IsEnd(r)) && (i < |s| ==> !IsLive(s[i]))
    ensures forall k :: i <= k < |s| ==> IsDeleted(s[k])
  {
    forall k | i <= k < |s| ensures IsDeleted(s[k]) {
      assert s[i] in s;
      if k > i {
        assert Before(s[i], s[k]);
      }
    }
  }

  // ---------------------------------------------------------------- the subtraction never wraps

  /** In every turn of the loop the previous file ends no later than the next one starts. */
  predicate NeverWraps(s: seq<Record>, i: nat, prevEnd: nat, requested: nat, last: nat)
    requires i <= |s|
    decreases |s| - i
  {
    var thisStart := if i == |s| || IsDeleted(s[i]) then last else s[i].start;
    && prevEnd <= thisStart
    && (Gap(thisStart, prevEnd) >= requested || i == |s| || NeverWraps(s, i + 1, NextEnd(s[i]), requested, last))
  }

  lemma {:induction false} GapNeverWraps(s: seq<Record>, i: nat, prevEnd: nat, requested: nat, last: nat)
    requires Sorted(s) && Extents(s, last) && i <= |s| && prevEnd <= last
    requires forall k :: i <= k < |s| && IsLive(s[k]) ==> prevEnd <= s[k].start
    ensures NeverWraps(s, i, prevEnd, requested, last)
    decreases |s| - i
  {
    if i < |s| {
      assert s[i] in s;
      forall k | i + 1 <= k < |s| && IsLive(s[k]) ensures Stop(s[i]) <= s[k].start {
        SortedStops(s, last, i, k);
      }
      NextEndIsStop(s[i], last);
      GapNeverWraps(s, i + 1, Stop(s[i]), requested, last);
    }
  }

  /** An answer of 0 is left to mean that nothing was found. */
  lemma {:induction false} FoundIsPositive(s: seq<Record>, i: nat, prevEnd: nat, requested: nat, last: nat)
    requires Extents(s, last) && i <= |s| && prevEnd >= 1
    ensures SearchGap(s, i, prevEnd, requested, last) != Some(0)
    decreases |s| - i
  {
    if i < |s| {
      assert s[i] in s;
      NextEndIsStop(s[i], last);
      FoundIsPositive(s, i + 1, Stop(s[i]), requested, last);
    }
  }

  // ---------------------------------------------------------------- the library sort

  /** Insertion by the comparator. */
  function Insert(r: Record, s: seq<Record>): seq<Record> {
    if s == [] || StartingBlockCmp(r, s[0]) < 0 then [r] + s else [s[0]] + Insert(r, s[1..])
  }

  /** One sort that the comparator allows; qsort may return any other. */
  function Qsort(recs: seq<Record>): seq<Record> {
    if recs == [] then [] else Insert(recs[0], Qsort(recs[1..]))
  }

  ghost predicate SmallStarts(recs: seq<Record>) {
    forall r :: r in recs && !IsDeleted(r) ==> r.start < WORD32 / 2
  }

  lemma {:induction false} InsertBag(r: Record, s: seq<Record>)
    ensures multiset(Insert(r, s)) == multiset{r} + multiset(s)
    decreases |s|
  {
    if s != [] {
      assert s == [s[0]] + s[1..];
      InsertBag(r, s[1..]);
    }
  }

  lemma HeadFirst(head: Record, s: seq<Record>)
    requires Sorted(s) && forall x :: x in s ==> Before(head, x)
    ensures Sorted([head] + s)
  {
  }

  lemma TailBehind(head: Record, tail: seq<Record>)
    requires Sorted([head] + tail)
    ensures Sorted(tail) && forall x :: x in tail ==> Before(head, x)
  {
    var s := [head] + tail;
    assert s[1..] == tail;
    forall x | x in tail ensures Before(head, x) {
      var j :| 0 <= j < |tail| && tail[j] == x;
      assert Before(s[0], s[j + 1]);
    }
  }

  lemma InsertMembers(r: Record, s: seq<Record>)
    ensures forall x :: x in Insert(r, s) ==> x == r || x in s
  {
    InsertBag(r, s);
    forall x | x in Insert(r, s) ensures x == r || x in s {
      assert x in multiset(Insert(r, s));
      assert x in multiset{r} + multiset(s);
    }
  }

  /** The comparator agrees with the order it is used for. */
  lemma CmpIsBefore(r: Record, head: Record)
    requires SmallStarts([r, head])
    ensures if StartingBlockCmp(r, head) < 0 then Before(r, head) else Before(head, r)
  {
    assert r in [r, head] && head in [r, head];
    if !IsDeleted(r) && !IsDeleted(head) {
      CmpOrdersByStart(r, head);
    }
  }

  lemma {:induction false} InsertSorted(r: Record, s: seq<Record>)
    requires Sorted(s) && SmallStarts([r] + s)
    ensures Sorted(Insert(r, s))
    decreases |s|
  {
    if s != [] {
      var head, tail := s[0], s[1..];
      assert s == [head] + tail;
      TailBehind(head, tail);
      assert SmallStarts([r, head]) && SmallStarts([r] + tail);
      CmpIsBefore(r, head);
      if StartingBlockCmp(r, head) < 0 {
        forall x | x in s ensures Before(r, x) {
          assert x == head || Before(head, x);
        }
        HeadFirst(r, s);
      } else {
        InsertSorted(r, tail);
        InsertMembers(r, tail);
        HeadFirst(head, Insert(r, tail));
      }
    }
  }

  /** The sort of the model is one that create may see. */
  lemma {:induction false} QsortIsSort(recs: seq<Record>)
    requires SmallStarts(recs)
    ensures IsSortOf(Qsort(recs), recs)
    decreases |recs|
  {
    if recs != [] {
      var rest := Qsort(recs[1..]);
      assert recs == [recs[0]] + recs[1..];
      QsortIsSort(recs[1..]);
      SameMembers(rest, recs[1..]);
      InsertBag(recs[0], rest);
      InsertSorted(recs[0], rest);
    }
  }
}
