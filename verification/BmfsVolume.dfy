/** The BMFS commands as functions on a volume, what they keep, and the map from names
    to byte strings that a volume stands for. */
module BmfsVolume {
  import opened Basics
  import opened BmfsDirectory

  const BLOCK := 2097152
  const MEGABYTE := 0x10_0000
  const MAX_FILE := 0x8000_0000

  /** The directory and the bytes of a disk of `blocks` blocks. The directory's own bytes
      lie in block 0, which holds no file. */
  datatype Volume = Volume(dir: seq<Record>, disk: seq<byte>, blocks: nat)

  // ---------------------------------------------------------------- the commands

  function Blocks(maxsize: nat): nat {
    (if maxsize % 2 != 0 then maxsize + 1 else maxsize) / 2
  }

  /** The blocks of a file are the fewest that hold its megabytes. */
  lemma RoomForSize(maxsize: nat)
    ensures maxsize <= 2 * Blocks(maxsize) < maxsize + 2
    ensures maxsize * MEGABYTE <= Blocks(maxsize) * BLOCK < (maxsize + 2) * MEGABYTE
  {
  }

  /** Where create places the file; None when it refuses. `sorted` is the sorted copy.
      A start of 0 counts as no place. */
  function CreateStart(dir: seq<Record>, name: seq<byte>, maxsize: nat, sorted: seq<Record>, blocks: nat): Option<nat>
    requires blocks >= 1
  {
    if FindFile(dir, name) < |dir| || FreeEntry(dir) == |dir| then None
    else
      var found := SearchGap(sorted, 0, 1, Blocks(maxsize), blocks - 1);
      if found == Some(0) then None else found
  }

  function NewRecord(slot: Record, name: seq<byte>, start: nat, reserved: nat): Record
    requires |name| < |slot.name|
  {
    Record(StrCpy(slot.name, name), start, reserved, 0)
  }

  function MarkEnd(r: Record): Record
    requires r.name != []
  {
    r.(name := r.name[0 := 0])
  }

  function MarkDeleted(r: Record): Record
    requires r.name != []
  {
    r.(name := r.name[0 := 1])
  }

  predicate Fields(dir: seq<Record>) { forall r :: r in dir ==> |r.name| == NAME_BYTES }

  /** The directory after a file was placed at `start`. */
  function AddRecord(dir: seq<Record>, name: seq<byte>, start: nat, reserved: nat): seq<Record>
    requires Fields(dir) && |name| < NAME_BYTES && FreeEntry(dir) < |dir|
  {
    var entry, used := FreeEntry(dir), NumUsed(dir);
    var d := dir[entry := NewRecord(dir[entry], name, start, reserved)];
    if entry == used && used + 1 < |dir| then d[used + 1 := MarkEnd(dir[used + 1])] else d
  }

  function CreateDir(dir: seq<Record>, name: seq<byte>, maxsize: nat, sorted: seq<Record>, blocks: nat): seq<Record>
    requires Fields(dir) && |name| < NAME_BYTES && blocks >= 1
  {
    match CreateStart(dir, name, maxsize, sorted, blocks)
    case None => dir
    case Some(start) => AddRecord(dir, name, start, Blocks(maxsize))
  }

  function DeleteDir(dir: seq<Record>, name: seq<byte>): seq<Record>
    requires Fields(dir)
  {
    var i := FindFile(dir, name);
    if i == |dir| then dir else dir[i := MarkDeleted(dir[i])]
  }

  function Overwrite(disk: seq<byte>, at: nat, bytes: seq<byte>): seq<byte> {
    seq(|disk|, i requires 0 <= i < |disk| => if at <= i < at + |bytes| then bytes[i - at] else disk[i])
  }

  /** Is there a file of that name with room for the bytes? */
  predicate Fits(v: Volume, name: seq<byte>, bytes: seq<byte>) {
    var i := FindFile(v.dir, name);
    i < |v.dir| && |bytes| <= v.dir[i].reserved * BLOCK
  }

  function WriteVolume(v: Volume, name: seq<byte>, bytes: seq<byte>): Volume {
    var i := FindFile(v.dir, name);
    if !Fits(v, name, bytes) then v
    else v.(dir := v.dir[i := v.dir[i].(size := |bytes|)], disk := Overwrite(v.disk, v.dir[i].start * BLOCK, bytes))
  }

  /** The bytes that read copies to the local file. */
  function ReadBytes(disk: seq<byte>, start: nat, size: nat): (bytes: seq<byte>)
    requires start * BLOCK + size <= |disk|
  {
    disk[start * BLOCK..start * BLOCK + size]
  }

  // ---------------------------------------------------------------- the invariant

  predicate NamesApart(a: Record, b: Record) {
    IsLive(a) && IsLive(b) ==> Text(a.name) != Text(b.name)
  }

  ghost predicate DistinctNames(dir: seq<Record>, e: nat)
    requires e <= |dir|
  {
    forall i, j {:trigger NamesApart(dir[i], dir[j])} :: 0 <= i < j < e ==> NamesApart(dir[i], dir[j])
  }

  predicate GoodRecord(r: Record) {
    IsLive(r) ==> ValidName(Text(r.name)) && r.size <= r.reserved * BLOCK && r.size < MAX_FILE
  }

  ghost predicate GoodRecords(dir: seq<Record>, e: nat)
    requires e <= |dir|
  {
    forall i :: 0 <= i < e ==> GoodRecord(dir[i])
  }

  /** A directory with its end marker: distinct names, disjoint files inside the data area,
      contents that fit their room and the loop counters of read and write. */
  ghost predicate DirInv(dir: seq<Record>, blocks: nat) {
    && Fields(dir) && EndIndex(dir) < |dir| && 2 <= blocks < WORD32 / 2
    && Extents(dir[..EndIndex(dir)], blocks - 1)
    && DistinctNames(dir, EndIndex(dir)) && GoodRecords(dir, EndIndex(dir))
  }

  ghost predicate Inv(v: Volume) {
    DirInv(v.dir, v.blocks) && |v.disk| >= v.blocks * BLOCK
  }

  function BlankRecord(): Record { Record(seq(NAME_BYTES, _ => 0), 0, 0, 0) }

  lemma FormatKeepsInv(v: Volume)
    requires 2 <= v.blocks < WORD32 / 2 && |v.disk| >= v.blocks * BLOCK
    ensures Inv(v.(dir := seq(RECORDS, _ => BlankRecord())))
  {
    var dir := seq(RECORDS, _ => BlankRecord());
    assert IsEnd(dir[0]);
    assert EndIndex(dir) == 0;
  }

  // ---------------------------------------------------------------- directory lookups

  /** The directory has this live record under its name. */
  predicate At(dir: seq<Record>, name: seq<byte>, i: nat) {
    i < EndIndex(dir) && Named(dir[i], name)
  }

  lemma FindUnique(dir: seq<Record>, name: seq<byte>, i: nat)
    requires DistinctNames(dir, EndIndex(dir)) && At(dir, name, i)
    ensures FindFile(dir, name) == i
  {
    var f := FindFile(dir, name);
    assert f < i ==> NamesApart(dir[f], dir[i]);
  }

  lemma NotFound(dir: seq<Record>, name: seq<byte>)
    requires FindFile(dir, name) == |dir|
    ensures forall i :: 0 <= i < EndIndex(dir) ==> !Named(dir[i], name)
  {
  }

  lemma EndIs(dir: seq<Record>, e: nat)
    requires e <= |dir| && (forall i :: 0 <= i < e ==> !IsEnd(dir[i])) && (e < |dir| ==> IsEnd(dir[e]))
    ensures EndIndex(dir) == e
  {
  }

  lemma FreeEntryIs(dir: seq<Record>, entry: nat)
    requires entry <= |dir| && (forall k :: 0 <= k < entry ==> !IsDeleted(dir[k]))
    requires entry <= EndIndex(dir) && (entry < EndIndex(dir) ==> IsDeleted(dir[entry]))
    ensures FreeEntry(dir) == entry
  {
  }

  /** Two directories answer a lookup alike. */
  predicate SameEntry(dir: seq<Record>, dir2: seq<Record>, name: seq<byte>) {
    |dir| == |dir2| && FindFile(dir2, name) == FindFile(dir, name)
    && (FindFile(dir, name) < |dir| ==> dir2[FindFile(dir, name)] == dir[FindFile(dir, name)])
  }

  /** dir2 is dir up to one record, which may be the old end marker. */
  predicate DiffersAt(dir: seq<Record>, dir2: seq<Record>, e: nat, e2: nat, at: nat) {
    && |dir| == |dir2| && at < e2 <= |dir|
    && (e2 == e || (e2 == e + 1 && at == e))
    && (forall i :: 0 <= i < e && i != at ==> dir2[i] == dir[i])
  }

  /** Names that the changed record neither had nor has are looked up alike. */
  lemma SameElsewhere(dir: seq<Record>, dir2: seq<Record>, at: nat, n: seq<byte>)
    requires DiffersAt(dir, dir2, EndIndex(dir), EndIndex(dir2), at)
    requires DistinctNames(dir2, EndIndex(dir2))
    requires at < EndIndex(dir) ==> !Named(dir[at], n)
    requires !Named(dir2[at], n)
    ensures SameEntry(dir, dir2, n)
  {
    var i := FindFile(dir, n);
    if i < |dir| {
      assert dir2[i] == dir[i];
      FindUnique(dir2, n, i);
    } else {
      NotFound(dir, n);
      assert forall k :: 0 <= k < EndIndex(dir2) && k != at ==> dir2[k] == dir[k];
    }
  }

  // ---------------------------------------------------------------- create

  ghost predicate FreeAt(dir: seq<Record>, p: nat, requested: nat, blocks: nat)
    requires blocks >= 1
  {
    Free(dir[..NumUsed(dir)], p, requested, blocks - 1)
  }

  ghost predicate HasPlace(dir: seq<Record>, requested: nat, blocks: nat)
    requires blocks >= 1
  {
    exists p: nat :: FreeAt(dir, p, requested, blocks)
  }

  /** A free record that leaves the end marker in the directory. */
  predicate KeepsMarker(dir: seq<Record>) {
    FreeEntry(dir) < EndIndex(dir) || EndIndex(dir) + 1 < |dir|
  }

  ghost predicate StaleRoom(dir: seq<Record>, requested: nat, blocks: nat)
    requires blocks >= 1
  {
    exists r :: r in dir[..NumUsed(dir)] && Roomy(r, requested, blocks - 1)
  }

  lemma FreeOfSort(s: seq<Record>, recs: seq<Record>, p: nat, requested: nat, last: nat)
    requires multiset(s) == multiset(recs)
    ensures Free(s, p, requested, last) <==> Free(recs, p, requested, last)
  {
    SameMembers(s, recs);
  }

  /** The search of create on any sorted copy: the lowest place where the file fits, if
      there is one. Without one it refuses exactly when no deleted record has room
      behind it, and the subtraction of the gap test never wraps. */
  lemma CreateFindsLowestGap(dir: seq<Record>, sorted: seq<Record>, requested: nat, blocks: nat)
    requires DirInv(dir, blocks) && IsSortOf(sorted, dir[..NumUsed(dir)]) && requested >= 1
    ensures var found := SearchGap(sorted, 0, 1, requested, blocks - 1);
            && NeverWraps(sorted, 0, 1, requested, blocks - 1) && found != Some(0)
            && (HasPlace(dir, requested, blocks) ==>
                 found.Some? && FreeAt(dir, found.value, requested, blocks)
                 && forall p: nat :: p < found.value ==> !FreeAt(dir, p, requested, blocks))
            && (!HasPlace(dir, requested, blocks) ==> (found.None? <==> !StaleRoom(dir, requested, blocks)))
  {
    var recs, last := dir[..NumUsed(dir)], blocks - 1;
    SortedExtents(sorted, recs, last);
    SameMembers(sorted, recs);
    forall k | 0 <= k < |sorted| && IsLive(sorted[k]) ensures 1 <= sorted[k].start {
      assert sorted[k] in sorted;
    }
    GapNeverWraps(sorted, 0, 1, requested, last);
    FoundIsPositive(sorted, 0, 1, requested, last);
    SearchFromRuled(sorted, 0, 1, requested, last);
    forall p: nat ensures Free(sorted, p, requested, last) <==> FreeAt(dir, p, requested, blocks) {
      FreeOfSort(sorted, recs, p, requested, last);
    }
  }

  lemma InsertExtents(recs: seq<Record>, e: nat, r: Record, last: nat)
    requires Extents(recs, last) && e < |recs| && IsDeleted(recs[e]) && IsLive(r) && r.reserved >= 1
    ensures Extents(recs[e := r], last) <==> Free(recs, r.start, r.reserved, last)
  {
    var after := recs[e := r];
    assert after[e] == r;
    assert forall i :: 0 <= i < |recs| && i != e ==> after[i] == recs[i];
    if Extents(after, last) {
      forall x | x in recs && IsLive(x) ensures !Overlap(x, r.start, r.reserved) {
        var i :| 0 <= i < |recs| && recs[i] == x;
        assert after[i] == x;
        if i < e {
          assert !Overlap(after[i], after[e].start, after[e].reserved);
        } else {
          assert !Overlap(after[e], after[i].start, after[i].reserved);
        }
      }
      assert r in after;
    }
    if Free(recs, r.start, r.reserved, last) {
      forall x | x in after ensures x == r || x in recs {
      }
      forall i, j | 0 <= i < j < |after| && IsLive(after[i]) && IsLive(after[j])
        ensures !Overlap(after[i], after[j].start, after[j].reserved)
      {
        assert recs[i] in recs && recs[j] in recs;
      }
    }
  }

  lemma AppendExtents(recs: seq<Record>, r: Record, last: nat)
    requires Extents(recs, last) && IsLive(r) && r.reserved >= 1
    ensures Extents(recs + [r], last) <==> Free(recs, r.start, r.reserved, last)
  {
    var after := recs + [r];
    assert after[|recs|] == r;
    if Extents(after, last) {
      forall x | x in recs && IsLive(x) ensures !Overlap(x, r.start, r.reserved) {
        var i :| 0 <= i < |recs| && recs[i] == x;
        assert after[i] == x;
        assert !Overlap(after[i], after[|recs|].start, after[|recs|].reserved);
      }
      assert r in after;
    }
    if Free(recs, r.start, r.reserved, last) {
      forall i, j | 0 <= i < j < |after| && IsLive(after[i]) && IsLive(after[j])
        ensures !Overlap(after[i], after[j].start, after[j].reserved)
      {
        assert recs[i] in recs;
      }
    }
  }

  lemma FieldsAfterAdd(dir: seq<Record>, name: seq<byte>, start: nat, reserved: nat)
    requires Fields(dir) && |name| < NAME_BYTES && FreeEntry(dir) < |dir|
    ensures |AddRecord(dir, name, start, reserved)| == |dir| && Fields(AddRecord(dir, name, start, reserved))
  {
    var after := AddRecord(dir, name, start, reserved);
    forall r | r in after ensures |r.name| == NAME_BYTES {
      var i :| 0 <= i < |after| && after[i] == r;
      assert dir[i] in dir;
    }
  }

  lemma NewRecordIsGood(slot: Record, name: seq<byte>, start: nat, reserved: nat)
    requires |slot.name| == NAME_BYTES && ValidName(name)
    ensures var r := NewRecord(slot, name, start, reserved);
            IsLive(r) && Text(r.name) == name && GoodRecord(r)
  {
    TextOfCopy(slot.name, name);
  }

  /** The end of the directory after a record was added. */
  lemma EndAfterAdd(dir: seq<Record>, name: seq<byte>, start: nat, reserved: nat)
    requires Fields(dir) && ValidName(name) && EndIndex(dir) < |dir|
    ensures var after, entry, used := AddRecord(dir, name, start, reserved), FreeEntry(dir), EndIndex(dir);
            && |after| == |dir| && Fields(after)
            && after[entry] == NewRecord(dir[entry], name, start, reserved)
            && IsLive(after[entry]) && Text(after[entry].name) == name
            && GoodRecord(after[entry])
            && (KeepsMarker(dir) ==> EndIndex(after) < |dir| && DiffersAt(dir, after, used, EndIndex(after), entry))
            && (!KeepsMarker(dir) ==> EndIndex(after) == |dir|)
  {
    var after, entry, used := AddRecord(dir, name, start, reserved), FreeEntry(dir), EndIndex(dir);
    FieldsAfterAdd(dir, name, start, reserved);
    assert dir[entry] in dir;
    NewRecordIsGood(dir[entry], name, start, reserved);
    EndIs(after, if entry < used then used else used + 1);
  }

  lemma DistinctAfterAdd(dir: seq<Record>, after: seq<Record>, e: nat, e2: nat, at: nat, name: seq<byte>)
    requires e <= |dir| && DistinctNames(dir, e) && GoodRecords(dir, e) && DiffersAt(dir, after, e, e2, at)
    requires GoodRecord(after[at]) && Text(after[at].name) == name
    requires forall i :: 0 <= i < e ==> !Named(dir[i], name)
    ensures DistinctNames(after, e2) && GoodRecords(after, e2)
  {
    forall i, j | 0 <= i < j < e2 ensures NamesApart(after[i], after[j]) {
      if i != at && j != at {
        assert NamesApart(dir[i], dir[j]);
      } else {
        assert i != at ==> !Named(dir[i], name);
        assert j != at ==> !Named(dir[j], name);
      }
    }
    forall i | 0 <= i < e2 ensures GoodRecord(after[i]) {
      assert i != at ==> GoodRecord(dir[i]);
    }
  }

  lemma ExtentsAfterAdd(dir: seq<Record>, after: seq<Record>, e: nat, e2: nat, at: nat, last: nat)
    requires e <= |dir| && Extents(dir[..e], last) && DiffersAt(dir, after, e, e2, at)
    requires IsLive(after[at]) && after[at].reserved >= 1 && (at < e ==> IsDeleted(dir[at]))
    ensures Extents(after[..e2], last) <==> Free(dir[..e], after[at].start, after[at].reserved, last)
  {
    if at < e {
      assert after[..e2] == dir[..e][at := after[at]];
      InsertExtents(dir[..e], at, after[at], last);
    } else {
      assert after[..e2] == dir[..e] + [after[at]];
      AppendExtents(dir[..e], after[at], last);
    }
  }

  /** A record added to a good directory leaves it good exactly when its place is free
      and the end marker stays. */
  lemma AddKeepsInvIff(dir: seq<Record>, name: seq<byte>, start: nat, reserved: nat, blocks: nat)
    requires DirInv(dir, blocks) && ValidName(name) && FindFile(dir, name) == |dir| && reserved >= 1
    ensures DirInv(AddRecord(dir, name, start, reserved), blocks) <==>
            KeepsMarker(dir) && FreeAt(dir, start, reserved, blocks)
  {
    EndAfterAdd(dir, name, start, reserved);
    if KeepsMarker(dir) {
      AddWithMarker(dir, AddRecord(dir, name, start, reserved), FreeEntry(dir), name, blocks);
    }
  }

  lemma AddWithMarker(dir: seq<Record>, after: seq<Record>, at: nat, name: seq<byte>, blocks: nat)
    requires DirInv(dir, blocks) && FindFile(dir, name) == |dir|
    requires Fields(after) && EndIndex(after) < |after| && DiffersAt(dir, after, EndIndex(dir), EndIndex(after), at)
    requires GoodRecord(after[at]) && IsLive(after[at]) && Text(after[at].name) == name && after[at].reserved >= 1
    requires at < EndIndex(dir) ==> IsDeleted(dir[at])
    ensures DirInv(after, blocks) <==> FreeAt(dir, after[at].start, after[at].reserved, blocks)
  {
    NotFound(dir, name);
    DistinctAfterAdd(dir, after, EndIndex(dir), EndIndex(after), at, name);
    ExtentsAfterAdd(dir, after, EndIndex(dir), EndIndex(after), at, blocks - 1);
  }

  /** When create keeps a directory good: it keeps the end marker and there is a gap, or
      there is neither a gap nor a deleted record with room behind it (and nothing changes). */
  ghost predicate CreateSafe(dir: seq<Record>, name: seq<byte>, maxsize: nat, blocks: nat)
    requires blocks >= 1
  {
    || FindFile(dir, name) < |dir|
    || (if HasPlace(dir, Blocks(maxsize), blocks) then KeepsMarker(dir) else !StaleRoom(dir, Blocks(maxsize), blocks))
  }

  lemma CreateKeepsInvIff(dir: seq<Record>, name: seq<byte>, maxsize: nat, sorted: seq<Record>, blocks: nat)
    requires DirInv(dir, blocks) && ValidName(name) && maxsize >= 1 && IsSortOf(sorted, dir[..NumUsed(dir)])
    ensures DirInv(CreateDir(dir, name, maxsize, sorted, blocks), blocks) <==> CreateSafe(dir, name, maxsize, blocks)
  {
    var requested := Blocks(maxsize);
    CreateFindsLowestGap(dir, sorted, requested, blocks);
    var start := CreateStart(dir, name, maxsize, sorted, blocks);
    if start.Some? {
      AddKeepsInvIff(dir, name, start.value, requested, blocks);
    }
  }

  /** With no deleted records and no gap, create changes nothing. */
  lemma FullDiskRefusesCreate(dir: seq<Record>, name: seq<byte>, maxsize: nat, sorted: seq<Record>, blocks: nat)
    requires DirInv(dir, blocks) && ValidName(name) && maxsize >= 1 && IsSortOf(sorted, dir[..NumUsed(dir)])
    requires (forall i :: 0 <= i < EndIndex(dir) ==> IsLive(dir[i])) && !HasPlace(dir, Blocks(maxsize), blocks)
    ensures CreateDir(dir, name, maxsize, sorted, blocks) == dir
  {
    CreateFindsLowestGap(dir, sorted, Blocks(maxsize), blocks);
  }

  // ---------------------------------------------------------------- contents

  /** What a name stands for: the room that create reserved and the bytes written last. */
  datatype File = File(capacity: nat, bytes: seq<byte>)

  lemma RecordInside(v: Volume, i: nat)
    requires Inv(v) && i < EndIndex(v.dir) && IsLive(v.dir[i])
    ensures 1 <= v.dir[i].start && v.dir[i].size <= v.dir[i].reserved * BLOCK
    ensures Stop(v.dir[i]) * BLOCK <= |v.disk|
  {
    assert v.dir[i] in v.dir[..EndIndex(v.dir)];
    assert GoodRecord(v.dir[i]);
  }

  lemma RecordsApart(v: Volume, i: nat, j: nat)
    requires Inv(v) && i < EndIndex(v.dir) && IsLive(v.dir[i]) && j < EndIndex(v.dir) && IsLive(v.dir[j]) && i != j
    ensures Stop(v.dir[i]) <= v.dir[j].start || Stop(v.dir[j]) <= v.dir[i].start
  {
    var recs := v.dir[..EndIndex(v.dir)];
    if i < j {
      assert !Overlap(recs[i], recs[j].start, recs[j].reserved);
    } else {
      assert !Overlap(recs[j], recs[i].start, recs[i].reserved);
    }
  }

  /** read: the file under a name. */
  ghost function Lookup(v: Volume, name: seq<byte>): Option<File>
    requires Inv(v)
  {
    var i := FindFile(v.dir, name);
    if i == |v.dir| then None
    else
      RecordInside(v, i);
      Some(File(v.dir[i].reserved * BLOCK, ReadBytes(v.disk, v.dir[i].start, v.dir[i].size)))
  }

  /** Nothing changes for the other names: neither the record nor the contents. */
  ghost predicate OthersKeep(v: Volume, v2: Volume, name: seq<byte>)
    requires Inv(v) && Inv(v2)
  {
    forall n: seq<byte> {:trigger Lookup(v2, n)} {:trigger SameEntry(v.dir, v2.dir, n)} :: n != name ==>
      SameEntry(v.dir, v2.dir, n) && Lookup(v2, n) == Lookup(v, n)
  }

  // ---------------------------------------------------------------- the effect of each command

  function Create(v: Volume, name: seq<byte>, maxsize: nat, sorted: seq<Record>): Volume
    requires Fields(v.dir) && |name| < NAME_BYTES && v.blocks >= 1
  {
    v.(dir := CreateDir(v.dir, name, maxsize, sorted, v.blocks))
  }

  function Delete(v: Volume, name: seq<byte>): Volume
    requires Fields(v.dir)
  {
    v.(dir := DeleteDir(v.dir, name))
  }

  /** When one record changes, all lookups by other names than its own stay as they were. */
  lemma OthersAfterChange(v: Volume, v2: Volume, at: nat, name: seq<byte>)
    requires Inv(v) && Inv(v2) && v2.disk == v.disk
    requires DiffersAt(v.dir, v2.dir, EndIndex(v.dir), EndIndex(v2.dir), at)
    requires at < EndIndex(v.dir) && IsLive(v.dir[at]) ==> Text(v.dir[at].name) == name
    requires IsLive(v2.dir[at]) ==> Text(v2.dir[at].name) == name
    ensures OthersKeep(v, v2, name)
  {
    forall n | n != name ensures SameEntry(v.dir, v2.dir, n) && Lookup(v2, n) == Lookup(v, n) {
      SameElsewhere(v.dir, v2.dir, at, n);
    }
  }

  lemma PlacedEffect(v: Volume, name: seq<byte>, start: nat, reserved: nat)
    requires Inv(v) && ValidName(name) && FindFile(v.dir, name) == |v.dir| && KeepsMarker(v.dir)
    requires Inv(v.(dir := AddRecord(v.dir, name, start, reserved)))
    ensures var v2 := v.(dir := AddRecord(v.dir, name, start, reserved));
            OthersKeep(v, v2, name) && Lookup(v2, name) == Some(File(reserved * BLOCK, []))
  {
    var v2, at := v.(dir := AddRecord(v.dir, name, start, reserved)), FreeEntry(v.dir);
    EndAfterAdd(v.dir, name, start, reserved);
    OthersAfterChange(v, v2, at, name);
    assert At(v2.dir, name, at);
    FindUnique(v2.dir, name, at);
    assert ReadBytes(v2.disk, start, 0) == [];
  }

  /** A safe create succeeds exactly for a new name and with a gap left. */
  lemma CreateSucceedsIff(dir: seq<Record>, name: seq<byte>, maxsize: nat, sorted: seq<Record>, blocks: nat)
    requires DirInv(dir, blocks) && maxsize >= 1 && IsSortOf(sorted, dir[..NumUsed(dir)])
    requires CreateSafe(dir, name, maxsize, blocks)
    ensures CreateStart(dir, name, maxsize, sorted, blocks).Some? <==>
            FindFile(dir, name) == |dir| && HasPlace(dir, Blocks(maxsize), blocks)
    ensures CreateStart(dir, name, maxsize, sorted, blocks).Some? ==> KeepsMarker(dir)
  {
    CreateFindsLowestGap(dir, sorted, Blocks(maxsize), blocks);
  }

  /** A safe create answers with an empty file when the name is new and there is a gap. */
  lemma CreateEffect(v: Volume, name: seq<byte>, maxsize: nat, sorted: seq<Record>)
    requires Inv(v) && ValidName(name) && maxsize >= 1 && IsSortOf(sorted, v.dir[..NumUsed(v.dir)])
    requires CreateSafe(v.dir, name, maxsize, v.blocks)
    ensures var v2 := Create(v, name, maxsize, sorted);
            && Inv(v2) && OthersKeep(v, v2, name)
            && Lookup(v2, name) ==
                 if Lookup(v, name).None? && HasPlace(v.dir, Blocks(maxsize), v.blocks)
                 then Some(File(Blocks(maxsize) * BLOCK, []))
                 else Lookup(v, name)
    ensures var before, after := Lookup(v, name), Lookup(Create(v, name, maxsize, sorted), name);
            before.None? && after.Some? ==>
              after.value.bytes == [] && maxsize * 0x10_0000 <= after.value.capacity < (maxsize + 2) * 0x10_0000
  {
    RoomForSize(maxsize);
    CreateKeepsInvIff(v.dir, name, maxsize, sorted, v.blocks);
    CreateSucceedsIff(v.dir, name, maxsize, sorted, v.blocks);
    var start := CreateStart(v.dir, name, maxsize, sorted, v.blocks);
    if start.Some? {
      PlacedEffect(v, name, start.value, Blocks(maxsize));
    } else {
      assert Create(v, name, maxsize, sorted) == v;
    }
  }

  /** Deleting or resizing a file leaves the extents in order. */
  lemma ChangeExtents(recs: seq<Record>, i: nat, r: Record, last: nat)
    requires Extents(recs, last) && i < |recs| && !IsEnd(r) && (IsLive(r) ==> IsLive(recs[i]))
    requires r.start == recs[i].start && r.reserved == recs[i].reserved
    ensures Extents(recs[i := r], last)
  {
    var after := recs[i := r];
    assert recs[i] in recs;
    forall x | x in after ensures x == r || x in recs {
    }
    forall a, b | 0 <= a < b < |after| && IsLive(after[a]) && IsLive(after[b])
      ensures !Overlap(after[a], after[b].start, after[b].reserved)
    {
      assert !Overlap(recs[a], recs[b].start, recs[b].reserved);
    }
  }

  /** The record of a live file, deleted or resized. */
  lemma ChangeKeepsDirInv(dir: seq<Record>, i: nat, r: Record, blocks: nat)
    requires DirInv(dir, blocks) && i < EndIndex(dir) && IsLive(dir[i]) && |r.name| == NAME_BYTES
    requires r.start == dir[i].start && r.reserved == dir[i].reserved
    requires IsDeleted(r) || (r.name == dir[i].name && r.size <= r.reserved * BLOCK && r.size < MAX_FILE)
    ensures DirInv(dir[i := r], blocks) && DiffersAt(dir, dir[i := r], EndIndex(dir), EndIndex(dir), i)
    ensures EndIndex(dir[i := r]) == EndIndex(dir)
  {
    var e, dir2 := EndIndex(dir), dir[i := r];
    EndIs(dir2, e);
    forall x | x in dir2 ensures |x.name| == NAME_BYTES {
      assert x == r || x in dir;
    }
    assert GoodRecord(dir[i]);
    forall a, b | 0 <= a < b < e ensures NamesApart(dir2[a], dir2[b]) {
      assert NamesApart(dir[a], dir[b]);
    }
    forall k | 0 <= k < e ensures GoodRecord(dir2[k]) {
      assert GoodRecord(dir[k]);
    }
    ChangeExtents(dir[..e], i, r, blocks - 1);
    assert dir2[..e] == dir[..e][i := r];
  }

  /** delete takes the file away. */
  lemma DeleteEffect(v: Volume, name: seq<byte>)
    requires Inv(v)
    ensures var v2 := Delete(v, name); Inv(v2) && OthersKeep(v, v2, name) && Lookup(v2, name).None?
  {
    var i := FindFile(v.dir, name);
    if i < |v.dir| {
      var v2 := Delete(v, name);
      assert v.dir[i] in v.dir;
      ChangeKeepsDirInv(v.dir, i, MarkDeleted(v.dir[i]), v.blocks);
      OthersAfterChange(v, v2, i, name);
      NoLongerFound(v.dir, v2.dir, i, name);
    }
  }

  lemma NoLongerFound(dir: seq<Record>, dir2: seq<Record>, i: nat, name: seq<byte>)
    requires DistinctNames(dir, EndIndex(dir)) && At(dir, name, i)
    requires EndIndex(dir2) == EndIndex(dir) && DiffersAt(dir, dir2, EndIndex(dir), EndIndex(dir2), i)
             && IsDeleted(dir2[i])
    ensures FindFile(dir2, name) == |dir2|
  {
    forall k | 0 <= k < EndIndex(dir2) ensures !Named(dir2[k], name) {
      if k != i {
        assert NamesApart(dir[if k < i then k else i], dir[if k < i then i else k]);
      }
    }
  }

  lemma OverwriteElsewhere(disk: seq<byte>, at: nat, bytes: seq<byte>, start: nat, size: nat)
    requires start * BLOCK + size <= |disk| && (start * BLOCK + size <= at || at + |bytes| <= start * BLOCK)
    ensures ReadBytes(Overwrite(disk, at, bytes), start, size) == ReadBytes(disk, start, size)
  {
  }

  lemma OverwriteHere(disk: seq<byte>, start: nat, bytes: seq<byte>)
    requires start * BLOCK + |bytes| <= |disk|
    ensures ReadBytes(Overwrite(disk, start * BLOCK, bytes), start, |bytes|) == bytes
  {
  }

  lemma OtherContents(v: Volume, name: seq<byte>, bytes: seq<byte>, n: seq<byte>)
    requires Inv(v) && Fits(v, name, bytes) && n != name
    requires Inv(WriteVolume(v, name, bytes)) && SameEntry(v.dir, WriteVolume(v, name, bytes).dir, n)
    ensures Lookup(WriteVolume(v, name, bytes), n) == Lookup(v, n)
  {
    var i, j := FindFile(v.dir, name), FindFile(v.dir, n);
    if j < |v.dir| {
      RecordInside(v, i);
      RecordInside(v, j);
      RecordsApart(v, i, j);
      OverwriteElsewhere(v.disk, v.dir[i].start * BLOCK, bytes, v.dir[j].start, v.dir[j].size);
    }
  }

  lemma OthersAfterWrite(v: Volume, name: seq<byte>, bytes: seq<byte>)
    requires Inv(v) && Fits(v, name, bytes) && Inv(WriteVolume(v, name, bytes))
    requires var v2, i := WriteVolume(v, name, bytes), FindFile(v.dir, name);
             DiffersAt(v.dir, v2.dir, EndIndex(v.dir), EndIndex(v2.dir), i) && v2.dir[i].name == v.dir[i].name
    ensures OthersKeep(v, WriteVolume(v, name, bytes), name)
  {
    var v2, i := WriteVolume(v, name, bytes), FindFile(v.dir, name);
    forall n | n != name ensures SameEntry(v.dir, v2.dir, n) && Lookup(v2, n) == Lookup(v, n) {
      SameElsewhere(v.dir, v2.dir, i, n);
      OtherContents(v, name, bytes, n);
    }
  }

  /** write replaces the contents of the named file when they fit, and never touches
      block 0, where the directory lies. */
  lemma WriteEffect(v: Volume, name: seq<byte>, bytes: seq<byte>)
    requires Inv(v) && |bytes| < MAX_FILE
    ensures var v2 := WriteVolume(v, name, bytes);
            && Inv(v2) && OthersKeep(v, v2, name) && v2.disk[..BLOCK] == v.disk[..BLOCK]
            && Lookup(v2, name) ==
                 if Lookup(v, name).Some? && |bytes| <= Lookup(v, name).value.capacity
                 then Some(Lookup(v, name).value.(bytes := bytes))
                 else Lookup(v, name)
  {
    if Fits(v, name, bytes) {
      var v2, i := WriteVolume(v, name, bytes), FindFile(v.dir, name);
      assert v.dir[i] in v.dir;
      ChangeKeepsDirInv(v.dir, i, v2.dir[i], v.blocks);
      RecordInside(v, i);
      OthersAfterWrite(v, name, bytes);
      FindUnique(v2.dir, name, i);
      OverwriteHere(v.disk, v.dir[i].start, bytes);
    }
  }

  /** The record that create adds. */
  lemma CreatedRecord(dir: seq<Record>, name: seq<byte>, maxsize: nat, sorted: seq<Record>, blocks: nat)
    requires DirInv(dir, blocks) && ValidName(name) && maxsize >= 1 && IsSortOf(sorted, dir[..NumUsed(dir)])
    requires CreateSafe(dir, name, maxsize, blocks) && CreateStart(dir, name, maxsize, sorted, blocks).Some?
    ensures var after := CreateDir(dir, name, maxsize, sorted, blocks);
            && FindFile(after, name) == FreeEntry(dir) < |after|
            && var r := after[FreeEntry(dir)];
               && r.start == CreateStart(dir, name, maxsize, sorted, blocks).value
               && r.reserved == Blocks(maxsize) && r.size == 0
  {
    var start := CreateStart(dir, name, maxsize, sorted, blocks).value;
    CreateSucceedsIff(dir, name, maxsize, sorted, blocks);
    CreateKeepsInvIff(dir, name, maxsize, sorted, blocks);
    EndAfterAdd(dir, name, start, Blocks(maxsize));
    FindUnique(CreateDir(dir, name, maxsize, sorted, blocks), name, FreeEntry(dir));
  }

  /** The file that create makes lies at the lowest place in the data area where that many
      blocks touch no live file. */
  lemma CreatedFileLiesLowest(dir: seq<Record>, name: seq<byte>, maxsize: nat, sorted: seq<Record>, blocks: nat)
    requires DirInv(dir, blocks) && ValidName(name) && maxsize >= 1 && IsSortOf(sorted, dir[..NumUsed(dir)])
    requires CreateSafe(dir, name, maxsize, blocks) && FindFile(dir, name) == |dir|
    requires var after := CreateDir(dir, name, maxsize, sorted, blocks); FindFile(after, name) < |after|
    ensures var after := CreateDir(dir, name, maxsize, sorted, blocks);
            var r := after[FindFile(after, name)];
            && r.size == 0 && maxsize <= 2 * r.reserved < maxsize + 2
            && FreeAt(dir, r.start, r.reserved, blocks)
            && forall p: nat :: p < r.start ==> !FreeAt(dir, p, r.reserved, blocks)
  {
    RoomForSize(maxsize);
    CreateFindsLowestGap(dir, sorted, Blocks(maxsize), blocks);
    CreateSucceedsIff(dir, name, maxsize, sorted, blocks);
    CreatedRecord(dir, name, maxsize, sorted, blocks);
  }

  /** A file that create made takes every write of no more than the size asked for, and reads
      back what was written. */
  lemma CreatedFileTakesItsSize(v: Volume, name: seq<byte>, maxsize: nat, sorted: seq<Record>, bytes: seq<byte>)
    requires Inv(v) && ValidName(name) && maxsize >= 1 && IsSortOf(sorted, v.dir[..NumUsed(v.dir)])
    requires CreateSafe(v.dir, name, maxsize, v.blocks) && |bytes| <= maxsize * 0x10_0000 && |bytes| < MAX_FILE
    requires var v2 := Create(v, name, maxsize, sorted);
             FindFile(v.dir, name) == |v.dir| && FindFile(v2.dir, name) < |v2.dir|
    ensures var v3 := WriteVolume(Create(v, name, maxsize, sorted), name, bytes);
            Inv(v3) && Lookup(v3, name).Some? && Lookup(v3, name).value.bytes == bytes
  {
    var v2 := Create(v, name, maxsize, sorted);
    CreateEffect(v, name, maxsize, sorted);
    assert Lookup(v, name).None? && Lookup(v2, name).Some?;
    WriteEffect(v2, name, bytes);
  }

  // ---------------------------------------------------------------- runs

  datatype Command =
    | CreateFile(name: seq<byte>, maxsize: nat, sorted: seq<Record>)
    | WriteFile(name: seq<byte>, bytes: seq<byte>)
    | DeleteFile(name: seq<byte>)

  /** What a run takes for granted: names that fit a record, sizes as the command line
      delivers them, some sorted copy, and creates that meet CreateSafe. */
  ghost predicate Allowed(v: Volume, c: Command)
    requires Inv(v)
  {
    match c
    case CreateFile(name, maxsize, sorted) =>
      ValidName(name) && 1 <= maxsize < MAX_FILE && IsSortOf(sorted, v.dir[..NumUsed(v.dir)])
      && CreateSafe(v.dir, name, maxsize, v.blocks)
    case WriteFile(name, bytes) => |bytes| < MAX_FILE
    case DeleteFile(_) => true
  }

  ghost function Execute(v: Volume, c: Command): (v2: Volume)
    requires Inv(v) && Allowed(v, c)
  {
    match c
    case CreateFile(name, maxsize, sorted) => Create(v, name, maxsize, sorted)
    case WriteFile(name, bytes) => WriteVolume(v, name, bytes)
    case DeleteFile(name) => Delete(v, name)
  }

  /** What a command leaves under its name; `place` says whether a gap is left for a new file. */
  function Outcome(before: Option<File>, c: Command, place: bool): Option<File> {
    match c
    case CreateFile(_, maxsize, _) => if before.None? && place then Some(File(Blocks(maxsize) * BLOCK, [])) else before
    case WriteFile(_, bytes) =>
      if before.Some? && |bytes| <= before.value.capacity then Some(before.value.(bytes := bytes)) else before
    case DeleteFile(_) => None
  }

  ghost predicate Place(v: Volume, c: Command)
    requires Inv(v)
  {
    c.CreateFile? && HasPlace(v.dir, Blocks(c.maxsize), v.blocks)
  }

  lemma ExecuteEffect(v: Volume, c: Command)
    requires Inv(v) && Allowed(v, c)
    ensures var v2 := Execute(v, c);
            Inv(v2) && OthersKeep(v, v2, c.name) && Lookup(v2, c.name) == Outcome(Lookup(v, c.name), c, Place(v, c))
  {
    match c {
      case CreateFile(name, maxsize, sorted) => CreateEffect(v, name, maxsize, sorted);
      case WriteFile(name, bytes) => WriteEffect(v, name, bytes);
      case DeleteFile(name) => DeleteEffect(v, name);
    }
  }

  /** The command on the map. */
  function OnMap(m: map<seq<byte>, File>, c: Command, place: bool): map<seq<byte>, File> {
    match c
    case CreateFile(name, maxsize, _) => if name !in m && place then m[name := File(Blocks(maxsize) * BLOCK, [])] else m
    case WriteFile(name, bytes) =>
      if name in m && |bytes| <= m[name].capacity then m[name := m[name].(bytes := bytes)] else m
    case DeleteFile(name) => m - {name}
  }

  function InMap(m: map<seq<byte>, File>, n: seq<byte>): Option<File> {
    if n in m then Some(m[n]) else None
  }

  /** The volume stands for the map. */
  ghost predicate Represents(v: Volume, m: map<seq<byte>, File>)
    requires Inv(v)
  {
    forall n: seq<byte> :: Lookup(v, n) == InMap(m, n)
  }

  lemma OutcomeInMap(m: map<seq<byte>, File>, c: Command, place: bool)
    ensures InMap(OnMap(m, c, place), c.name) == Outcome(InMap(m, c.name), c, place)
    ensures OnMap(m, c, place) - {c.name} == m - {c.name}
  {
  }

  lemma RepresentsAfter(v: Volume, v2: Volume, m: map<seq<byte>, File>, m2: map<seq<byte>, File>, name: seq<byte>)
    requires Inv(v) && Inv(v2) && Represents(v, m) && OthersKeep(v, v2, name)
    requires Lookup(v2, name) == InMap(m2, name) && m2 - {name} == m - {name}
    ensures Represents(v2, m2)
  {
    forall n: seq<byte> ensures Lookup(v2, n) == InMap(m2, n) {
      if n != name {
        assert Lookup(v, n) == InMap(m, n);
        assert InMap(m, n) == InMap(m - {name}, n) && InMap(m2, n) == InMap(m2 - {name}, n);
      }
    }
  }

  lemma StepRefines(v: Volume, m: map<seq<byte>, File>, c: Command)
    requires Inv(v) && Allowed(v, c) && Represents(v, m)
    ensures Inv(Execute(v, c)) && Represents(Execute(v, c), OnMap(m, c, Place(v, c)))
  {
    ExecuteEffect(v, c);
    OutcomeInMap(m, c, Place(v, c));
    assert Lookup(v, c.name) == InMap(m, c.name);
    RepresentsAfter(v, Execute(v, c), m, OnMap(m, c, Place(v, c)), c.name);
  }

  /** A run of commands from v to v2 whose map history goes from m to m2. */
  ghost predicate Run(v: Volume, m: map<seq<byte>, File>, cs: seq<Command>, v2: Volume, m2: map<seq<byte>, File>)
    decreases |cs|
  {
    if cs == [] then v2 == v && m2 == m
    else Inv(v) && Allowed(v, cs[0]) && Run(Execute(v, cs[0]), OnMap(m, cs[0], Place(v, cs[0])), cs[1..], v2, m2)
  }

  /** In every run the volume stays well formed and refines the map from names to byte strings. */
  lemma {:induction false} RunRefines(v: Volume, m: map<seq<byte>, File>, cs: seq<Command>, v2: Volume,
      m2: map<seq<byte>, File>)
    requires Inv(v) && Represents(v, m) && Run(v, m, cs, v2, m2)
    ensures Inv(v2) && Represents(v2, m2)
    decreases |cs|
  {
    if cs != [] {
      StepRefines(v, m, cs[0]);
      RunRefines(Execute(v, cs[0]), OnMap(m, cs[0], Place(v, cs[0])), cs[1..], v2, m2);
    }
  }

  function Format(v: Volume): Volume { v.(dir := seq(RECORDS, _ => BlankRecord())) }

  /** From format on: live files have distinct names and disjoint block ranges inside the
      data area, and every read delivers the bytes that the history of the name says. */
  lemma VolumeIsAMap(v: Volume, cs: seq<Command>, v2: Volume, m2: map<seq<byte>, File>)
    requires 2 <= v.blocks < WORD32 / 2 && |v.disk| >= v.blocks * BLOCK
    requires Run(Format(v), map[], cs, v2, m2)
    ensures Inv(v2) && Represents(v2, m2)
    ensures forall i, j :: 0 <= i < j < EndIndex(v2.dir) && IsLive(v2.dir[i]) && IsLive(v2.dir[j]) ==>
              NamesApart(v2.dir[i], v2.dir[j]) && !Overlap(v2.dir[i], v2.dir[j].start, v2.dir[j].reserved)
    ensures forall i :: 0 <= i < EndIndex(v2.dir) && IsLive(v2.dir[i]) ==>
              1 <= v2.dir[i].start && Stop(v2.dir[i]) <= v.blocks - 1
  {
    FormatKeepsInv(v);
    var f := Format(v);
    forall n ensures Lookup(f, n) == InMap(map[], n) {
      assert IsEnd(f.dir[0]);
    }
    RunKeepsBlocks(f, map[], cs, v2, m2);
    RunRefines(f, map[], cs, v2, m2);
    var recs := v2.dir[..EndIndex(v2.dir)];
    forall i, j | 0 <= i < j < EndIndex(v2.dir) && IsLive(v2.dir[i]) && IsLive(v2.dir[j])
      ensures NamesApart(v2.dir[i], v2.dir[j]) && !Overlap(v2.dir[i], v2.dir[j].start, v2.dir[j].reserved)
    {
      assert !Overlap(recs[i], recs[j].start, recs[j].reserved);
    }
    forall i | 0 <= i < EndIndex(v2.dir) && IsLive(v2.dir[i])
      ensures 1 <= v2.dir[i].start && Stop(v2.dir[i]) <= v.blocks - 1
    {
      assert recs[i] in recs;
    }
  }

  lemma {:induction false} RunKeepsBlocks(v: Volume, m: map<seq<byte>, File>, cs: seq<Command>, v2: Volume,
      m2: map<seq<byte>, File>)
    requires Run(v, m, cs, v2, m2)
    ensures v2.blocks == v.blocks
    decreases |cs|
  {
    if cs != [] {
      RunKeepsBlocks(Execute(v, cs[0]), OnMap(m, cs[0], Place(v, cs[0])), cs[1..], v2, m2);
    }
  }
}
