/** The BMFS utility itself: a directory buffer and a disk changed in place, each command
    proved against its function on volumes. */
module BmfsTool {
  import opened Basics
  import opened BmfsDirectory
  import opened BmfsVolume

  class Tool {
    const directory: array<Record>
    const disk: array<byte>
    const numBlocks: nat
    /** The directory as it was flushed to the disk last, and the disk information sector. */
    var stored: seq<Record>
    var info: seq<byte>

    ghost predicate Valid()
      reads this, directory
    {
      stored == directory[..] && Fields(directory[..])
    }

    ghost function State(): Volume
      reads directory, disk
    {
      Volume(directory[..], disk[..], numBlocks)
    }

    constructor (records: array<Record>, bytes: array<byte>, blocks: nat)
      requires Fields(records[..])
      ensures Valid() && directory == records && disk == bytes && numBlocks == blocks
    {
      directory := records;
      disk := bytes;
      numBlocks := blocks;
      info := [];
      new;
      stored := directory[..];
    }

    /** Write the buffer back to the directory sectors. */
    method Flush()
      modifies `stored
      ensures stored == directory[..]
    {
      stored := directory[..];
    }

    method FindFile(name: seq<byte>) returns (slot: nat)
      requires Valid()
      ensures slot == BmfsDirectory.FindFile(directory[..], name)
    {
      ghost var dir := directory[..];
      slot := 0;
      while slot < directory.Length
        invariant Scanning(dir, slot)
        invariant forall k :: 0 <= k < slot ==> !Named(dir[k], name)
      {
        if IsEnd(directory[slot]) {
          FindFileIs(dir, name, slot);
          return directory.Length;
        }
        if Named(directory[slot], name) {
          FindFileIs(dir, name, slot);
          return;
        }
        slot := slot + 1;
      }
      FindFileIs(dir, name, slot);
    }

    /** The first loop of create: used or deleted records, and the record to use. */
    method ScanRecords() returns (used: nat, entry: nat)
      ensures used == NumUsed(directory[..]) && entry == FreeEntry(directory[..])
    {
      ghost var dir := directory[..];
      used, entry := 0, directory.Length;
      var i := 0;
      while i < directory.Length
        invariant i <= directory.Length && used == 0
        invariant Scanning(dir, i)
        invariant entry <= directory.Length && (entry < directory.Length ==> entry < i && IsDeleted(dir[entry]))
        invariant forall k :: 0 <= k < i && k < entry ==> !IsDeleted(dir[k])
      {
        if IsEnd(directory[i]) {
          EndIs(dir, i);
          used := i;
          entry := if entry == directory.Length then i else entry;
          FreeEntryIs(dir, entry);
          return;
        }
        if IsDeleted(directory[i]) && entry == directory.Length {
          entry := i;
        }
        i := i + 1;
      }
      EndIs(dir, directory.Length);
      FreeEntryIs(dir, entry);
    }

    /** The second loop of create, over the sorted copy. 0 stands for no gap. */
    method FindGap(sorted: seq<Record>, requested: nat) returns (start: nat)
      requires numBlocks >= 1
      ensures start == match SearchGap(sorted, 0, 1, requested, numBlocks - 1) case None => 0 case Some(p) => p
    {
      var prevEnd := 1;
      var i := 0;
      while i < |sorted| + 1
        invariant i <= |sorted| + 1
        invariant i <= |sorted| ==>
                    SearchGap(sorted, 0, 1, requested, numBlocks - 1)
                      == SearchGap(sorted, i, prevEnd, requested, numBlocks - 1)
        invariant i == |sorted| + 1 ==> SearchGap(sorted, 0, 1, requested, numBlocks - 1) == None
      {
        var thisStart := if i == |sorted| || IsDeleted(sorted[i]) then numBlocks - 1 else sorted[i].start;
        if Gap(thisStart, prevEnd) >= requested {
          return prevEnd;
        }
        if i < |sorted| {
          prevEnd := NextEnd(sorted[i]);
        }
        i := i + 1;
      }
      start := 0;
    }

    /** create: the answer says whether the file was made. */
    method Create(name: seq<byte>, maxsize: nat) returns (ok: bool)
      requires Valid() && numBlocks >= 1 && |name| < NAME_BYTES && 1 <= maxsize < MAX_FILE
      modifies directory, `stored
      ensures Valid()
      ensures var sorted := Qsort(old(directory[..])[..NumUsed(old(directory[..]))]);
              && State() == BmfsVolume.Create(old(State()), name, maxsize, sorted)
              && ok == CreateStart(old(directory[..]), name, maxsize, sorted, numBlocks).Some?
              && (DirInv(old(directory[..]), numBlocks) ==>
                  IsSortOf(sorted, old(directory[..])[..NumUsed(old(directory[..]))]))
      ensures var e := FreeEntry(old(directory[..]));
              ok ==> e < directory.Length && directory[e].size == 0
                     && maxsize <= 2 * directory[e].reserved < maxsize + 2
    {
      ghost var before := directory[..];
      var size := if maxsize % 2 != 0 then maxsize + 1 else maxsize;
      var slot := FindFile(name);
      var requested := size / 2;
      var used, entry := ScanRecords();
      assert directory[..used] == before[..used];
      if DirInv(before, numBlocks) {
        StartsAreSmall(before, numBlocks);
        QsortIsSort(before[..used]);
      }
      if slot < directory.Length || entry == directory.Length {
        return false;
      }
      var start := FindGap(Qsort(directory[..used]), requested);
      if start == 0 {
        return false;
      }
      PutRecord(name, entry, used, start, requested);
      Flush();
      return true;
    }

    method PutRecord(name: seq<byte>, entry: nat, used: nat, start: nat, reserved: nat)
      requires Fields(directory[..]) && |name| < NAME_BYTES
      requires entry == FreeEntry(directory[..]) < directory.Length && used == NumUsed(directory[..])
      modifies directory
      ensures directory[..] == AddRecord(old(directory[..]), name, start, reserved) && Fields(directory[..])
      ensures directory[entry].size == 0 && directory[entry].reserved == reserved
    {
      ghost var dir := directory[..];
      assert dir[entry] in dir;
      directory[entry] := NewRecord(directory[entry], name, start, reserved);
      if entry == used && used + 1 < directory.Length {
        assert dir[used + 1] in dir;
        directory[used + 1] := MarkEnd(directory[used + 1]);
      }
    }

    /** The data of a record lie on the disk. */
    ghost predicate OnDisk(slot: nat, size: nat)
      requires slot < directory.Length
      reads directory
    {
      directory[slot].start * BLOCK + size <= disk.Length
    }

    /** read: the bytes of the local file, None when there is no such file. */
    method Read(name: seq<byte>) returns (contents: Option<seq<byte>>)
      requires Valid()
      requires var i := BmfsDirectory.FindFile(directory[..], name);
               i < directory.Length ==> directory[i].size < MAX_FILE && OnDisk(i, directory[i].size)
      ensures var i := BmfsDirectory.FindFile(directory[..], name);
              contents == if i == directory.Length then None
                          else Some(ReadBytes(disk[..], directory[i].start, directory[i].size))
      ensures Inv(State()) ==> contents == match Lookup(State(), name) case None => None case Some(f) => Some(f.bytes)
    {
      var slot := FindFile(name);
      if slot == directory.Length {
        return None;
      }
      var at, size := directory[slot].start * BLOCK, directory[slot].size;
      var out: seq<byte> := [];
      var i := 0;
      while i < size
        invariant i <= size && out == disk[at..at + i]
      {
        out := out + [disk[at + i]];
        i := i + 1;
      }
      return Some(out);
    }

    /** In a well-formed volume every file is on the disk. */
    lemma FilesOnDisk(name: seq<byte>, size: nat)
      requires Inv(State()) && BmfsDirectory.FindFile(directory[..], name) < directory.Length
      ensures var i := BmfsDirectory.FindFile(directory[..], name);
              && directory[i].size < MAX_FILE && OnDisk(i, directory[i].size)
              && (size <= directory[i].reserved * BLOCK ==> OnDisk(i, size))
    {
      var i := BmfsDirectory.FindFile(directory[..], name);
      RecordInside(State(), i);
      assert GoodRecord(directory[..][i]);
    }

    method PutBytes(at: nat, bytes: seq<byte>)
      requires at + |bytes| <= disk.Length
      modifies disk
      ensures disk[..] == Overwrite(old(disk[..]), at, bytes)
    {
      var i := 0;
      while i < |bytes|
        invariant i <= |bytes|
        invariant forall k :: 0 <= k < disk.Length ==>
                    disk[k] == if at <= k < at + i then bytes[k - at] else old(disk[k])
      {
        disk[at + i] := bytes[i];
        i := i + 1;
      }
    }

    method Write(name: seq<byte>, bytes: seq<byte>) returns (ok: bool)
      requires Valid() && |bytes| < MAX_FILE
      requires Fits(State(), name, bytes) ==> OnDisk(BmfsDirectory.FindFile(directory[..], name), |bytes|)
      modifies directory, disk, `stored
      ensures Valid() && State() == WriteVolume(old(State()), name, bytes)
      ensures ok == Fits(old(State()), name, bytes)
    {
      var slot := FindFile(name);
      if slot == directory.Length || directory[slot].reserved * BLOCK < |bytes| {
        return false;
      }
      PutBytes(directory[slot].start * BLOCK, bytes);
      directory[slot] := directory[slot].(size := |bytes|);
      Flush();
      return true;
    }

    method Delete(name: seq<byte>) returns (ok: bool)
      requires Valid()
      modifies directory, `stored
      ensures Valid() && State() == BmfsVolume.Delete(old(State()), name)
      ensures ok == (BmfsDirectory.FindFile(old(directory[..]), name) < directory.Length)
    {
      var slot := FindFile(name);
      if slot == directory.Length {
        return false;
      }
      ghost var dir := directory[..];
      assert dir[slot] in dir;
      directory[slot] := MarkDeleted(directory[slot]);
      Flush();
      return true;
    }

    method Format()
      requires directory.Length == RECORDS
      modifies directory, `stored, `info
      ensures Valid() && State() == BmfsVolume.Format(old(State()))
      ensures forall i :: 0 <= i < directory.Length ==>
                && directory[i].start == directory[i].reserved == directory[i].size == 0
                && |directory[i].name| == NAME_BYTES && forall k :: 0 <= k < NAME_BYTES ==> directory[i].name[k] == 0
      ensures |info| == INFO_BYTES && Text(info) == TAG
    {
      var i := 0;
      while i < directory.Length
        invariant i <= directory.Length
        invariant forall k :: 0 <= k < i ==> directory[k] == BlankRecord()
      {
        directory[i] := BlankRecord();
        i := i + 1;
      }
      info := TAG + seq(INFO_BYTES - 4, _ => 0);
      TagIsText(info);
      Flush();
    }
  }

  const INFO_BYTES := 512
  const TAG: seq<byte> := ['B' as int, 'M' as int, 'F' as int, 'S' as int]

  lemma TagIsText(info: seq<byte>)
    requires |info| == INFO_BYTES && info[..4] == TAG && info[4] == 0
    ensures Text(info) == TAG
  {
    TextOfCopy(info, TAG);
    assert StrCpy(info, TAG) == info;
  }

  // ---------------------------------------------------------------- the scanning loops

  ghost predicate Scanning(dir: seq<Record>, i: nat) {
    i <= |dir| && forall k :: 0 <= k < i ==> !IsEnd(dir[k])
  }

  lemma FindFileIs(dir: seq<Record>, name: seq<byte>, i: nat)
    requires Scanning(dir, i) && (forall k :: 0 <= k < i ==> !Named(dir[k], name))
    requires i == |dir| || IsEnd(dir[i]) || Named(dir[i], name)
    ensures FindFile(dir, name) == if i < |dir| && Named(dir[i], name) then i else |dir|
  {
  }

  lemma StartsAreSmall(dir: seq<Record>, blocks: nat)
    requires DirInv(dir, blocks)
    ensures SmallStarts(dir[..NumUsed(dir)])
  {
  }
}
