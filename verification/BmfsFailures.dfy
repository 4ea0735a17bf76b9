/** Runs of BMFS from format that end in a create which goes wrong: past a deleted record,
    and without the end marker. */
module BmfsFailures {
  import opened Basics
  import opened BmfsDirectory
  import opened BmfsVolume

  // ---------------------------------------------------------------- filling the disk with files of one block

  const FIRST_LETTER: byte := 'a' as int

  function Letter(i: nat): byte
    requires i < RECORDS
  {
    FIRST_LETTER + i
  }

  function OneBlockRecord(letter: byte, start: nat): Record {
    Record(seq(NAME_BYTES, i => if i == 0 then letter else 0), start, 1, 0)
  }

  /** The directory after n files of one block: file i has a name of one letter and block i + 1. */
  function Files(n: nat): (dir: seq<Record>)
    requires n <= RECORDS
    ensures |dir| == RECORDS
  {
    seq(RECORDS, i requires 0 <= i < RECORDS => if i < n then OneBlockRecord(Letter(i), i + 1) else BlankRecord())
  }

  lemma LetterRecord(letter: byte, start: nat)
    requires letter > 1
    ensures IsLive(OneBlockRecord(letter, start)) && Text(OneBlockRecord(letter, start).name) == [letter]
  {
    var field := OneBlockRecord(letter, start).name;
    assert field[1..][0] == 0;
    assert Text(field[1..]) == [];
  }

  lemma FilesShape(n: nat)
    requires n <= RECORDS
    ensures EndIndex(Files(n)) == n && FreeEntry(Files(n)) == n
    ensures forall i :: 0 <= i < n ==> IsLive(Files(n)[i]) && Text(Files(n)[i].name) == [Letter(i)]
  {
    forall i | 0 <= i < n ensures IsLive(Files(n)[i]) && Text(Files(n)[i].name) == [Letter(i)] {
      LetterRecord(Letter(i), i + 1);
    }
    assert n < RECORDS ==> Files(n)[n] == BlankRecord() && BlankRecord().name[0] == 0;
    assert forall i :: 0 <= i < n ==> IsLive(Files(n)[i]);
    EndIs(Files(n), n);
    FreeEntryIs(Files(n), n);
  }

  lemma NewLetter(n: nat)
    requires n < RECORDS
    ensures FindFile(Files(n), [Letter(n)]) == RECORDS
  {
    FilesShape(n);
  }

  /** The files come sorted by their blocks. */
  lemma FilesSorted(n: nat)
    requires n <= RECORDS
    ensures IsSortOf(Files(n)[..n], Files(n)[..n])
  {
    FilesShape(n);
  }

  /** The next block is the lowest place for the next file. */
  lemma NextBlockIsFree(n: nat, blocks: nat)
    requires n < RECORDS && n + 3 <= blocks
    ensures FreeAt(Files(n), n + 1, 1, blocks)
    ensures forall p: nat :: p < n + 1 ==> !FreeAt(Files(n), p, 1, blocks)
  {
    FilesShape(n);
    var recs := Files(n)[..n];
    forall p: nat | p < n + 1 ensures !FreeAt(Files(n), p, 1, blocks) {
      if p > 0 {
        assert recs[p - 1] in recs && Overlap(recs[p - 1], p, 1);
      }
    }
  }

  /** One more file in the directory. */
  lemma OneMoreFile(n: nat)
    requires n < RECORDS
    ensures Fields(Files(n)) && FreeEntry(Files(n)) == n
    ensures AddRecord(Files(n), [Letter(n)], n + 1, 1) == Files(n + 1)
  {
    FilesShape(n);
    var blank := BlankRecord();
    assert NewRecord(blank, [Letter(n)], n + 1, 1) == OneBlockRecord(Letter(n), n + 1) by {
      assert StrCpy(blank.name, [Letter(n)]) == OneBlockRecord(Letter(n), n + 1).name;
    }
    assert MarkEnd(blank) == blank;
  }

  /** create places the next file right behind the others. */
  lemma NextStart(n: nat, blocks: nat)
    requires n < RECORDS && n + 3 <= blocks && DirInv(Files(n), blocks)
    ensures HasPlace(Files(n), 1, blocks)
    ensures CreateStart(Files(n), [Letter(n)], 2, Files(n)[..n], blocks) == Some(n + 1)
  {
    FilesShape(n);
    FilesSorted(n);
    NewLetter(n);
    NextBlockIsFree(n, blocks);
    CreateFindsLowestGap(Files(n), Files(n)[..n], 1, blocks);
  }

  function NextCommand(n: nat): Command
    requires n < RECORDS
  {
    CreateFile([Letter(n)], 2, Files(n)[..n])
  }

  /** create of the next file; only the last record takes the end marker away. */
  lemma CreateNext(v: Volume, n: nat)
    requires Inv(v) && n < RECORDS && v.dir == Files(n) && n + 3 <= v.blocks
    ensures IsSortOf(Files(n)[..n], v.dir[..NumUsed(v.dir)])
    ensures Create(v, [Letter(n)], 2, Files(n)[..n]) == v.(dir := Files(n + 1))
    ensures n + 1 < RECORDS ==> Allowed(v, NextCommand(n))
  {
    FilesShape(n);
    FilesSorted(n);
    NextStart(n, v.blocks);
    OneMoreFile(n);
  }

  // ---------------------------------------------------------------- runs

  lemma RunBefore(v: Volume, m: map<seq<byte>, File>, c: Command, cs: seq<Command>,
      v2: Volume, m2: map<seq<byte>, File>)
    requires Inv(v) && Allowed(v, c) && Run(Execute(v, c), OnMap(m, c, Place(v, c)), cs, v2, m2)
    ensures Run(v, m, [c] + cs, v2, m2)
  {
    assert ([c] + cs)[1..] == cs;
  }

  /** The volume with n files, or with the first of them deleted again. */
  function Filled(v: Volume, n: nat, deleted: bool): Volume
    requires n <= RECORDS
  {
    var full := v.(dir := Files(n));
    if deleted && Fields(full.dir) then Delete(full, [Letter(0)]) else full
  }

  /** From k files on: more files up to n, and then a delete of the first one if that is wanted. */
  lemma {:induction false} FillFrom(v: Volume, k: nat, n: nat, deleted: bool, m: map<seq<byte>, File>)
    returns (cs: seq<Command>, m2: map<seq<byte>, File>)
    requires k <= n < RECORDS && n + 2 <= v.blocks && Inv(Filled(v, k, false))
    ensures Run(Filled(v, k, false), m, cs, Filled(v, n, deleted), m2) && Inv(Filled(v, n, false))
    decreases n - k
  {
    var here := Filled(v, k, false);
    if k < n {
      CreateNext(here, k);
      ExecuteEffect(here, NextCommand(k));
      var rest, mr := FillFrom(v, k + 1, n, deleted, OnMap(m, NextCommand(k), Place(here, NextCommand(k))));
      RunBefore(here, m, NextCommand(k), rest, Filled(v, n, deleted), mr);
      cs, m2 := [NextCommand(k)] + rest, mr;
    } else if deleted {
      var c := DeleteFile([Letter(0)]);
      m2 := OnMap(m, c, false);
      RunBefore(here, m, c, [], Filled(v, n, true), m2);
      cs := [c] + [];
    } else {
      cs, m2 := [], m;
    }
  }

  lemma FormatIsEmpty(v: Volume)
    requires 2 <= v.blocks < WORD32 / 2 && |v.disk| >= v.blocks * BLOCK
    ensures Format(v) == Filled(v, 0, false) && Inv(Format(v))
  {
    assert Format(v).dir == Files(0);
    FormatKeepsInv(v);
  }

  // ---------------------------------------------------------------- past a deleted record

  /** Three files, the first one deleted. */
  function Holed(): (dir: seq<Record>)
    ensures |dir| == RECORDS && Fields(dir)
  {
    Files(3)[0 := OneBlockRecord(1, 1)]
  }

  lemma HoledShape()
    ensures EndIndex(Holed()) == 3 && FreeEntry(Holed()) == 0 && FindFile(Holed(), [Letter(3)]) == RECORDS
    ensures IsDeleted(Holed()[0]) && IsLive(Holed()[1]) && IsLive(Holed()[2])
  {
    FilesShape(3);
    EndIs(Holed(), 3);
  }

  lemma DeleteMakesHole(v: Volume)
    requires Inv(Filled(v, 3, false))
    ensures Filled(v, 3, true) == v.(dir := Holed())
  {
    FilesShape(3);
    FindUnique(Files(3), [Letter(0)], 0);
    var r := OneBlockRecord(Letter(0), 1);
    assert MarkDeleted(r) == OneBlockRecord(1, 1) by {
      assert r.name[0 := 1] == OneBlockRecord(1, 1).name;
    }
  }

  /** Two blocks fit nowhere on a disk of five, but there is room behind the deleted record. */
  lemma HoleMisleads()
    ensures !HasPlace(Holed(), 2, 5) && StaleRoom(Holed(), 2, 5)
  {
    HoledShape();
    var recs := Holed()[..3];
    assert recs == Holed()[..NumUsed(Holed())] && recs[0] in recs && recs[1] in recs;
    assert Roomy(recs[0], 2, 4);
    forall p: nat ensures !FreeAt(Holed(), p, 2, 5) {
      assert Overlap(recs[1], p, 2) || p < 1 || p > 2;
    }
  }

  /** The search on the sorted copy goes on past the deleted record and starts again behind it. */
  lemma HoleSearch()
    ensures var dir, sorted := Holed(), [Holed()[1], Holed()[2], Holed()[0]];
            && IsSortOf(sorted, dir[..NumUsed(dir)])
            && CreateStart(dir, [Letter(3)], 4, sorted, 5) == Some(2) && Overlap(dir[1], 2, Blocks(4))
  {
    HoledShape();
    var dir, s := Holed(), [Holed()[1], Holed()[2], Holed()[0]];
    assert dir[..3] == [dir[0], dir[1], dir[2]];
    assert SearchGap(s, 3, 2, 2, 4) == Some(2);
    assert SearchGap(s, 2, 4, 2, 4) == SearchGap(s, 3, 2, 2, 4);
    assert SearchGap(s, 1, 3, 2, 4) == SearchGap(s, 2, 4, 2, 4);
  }

  /** A run from format on a disk of five blocks: three files of one block, the first deleted. */
  lemma HoleReached(v: Volume) returns (cs: seq<Command>, m2: map<seq<byte>, File>)
    requires v.blocks == 5 && |v.disk| >= 5 * BLOCK
    ensures Run(Format(v), map[], cs, v.(dir := Holed()), m2) && Inv(v.(dir := Holed()))
  {
    FormatIsEmpty(v);
    cs, m2 := FillFrom(v, 0, 3, true, map[]);
    DeleteMakesHole(v);
    DeleteEffect(Filled(v, 3, false), [Letter(0)]);
  }

  /** Whatever sorted copy create uses there, the directory is out of order afterwards. */
  lemma HoleBreaksInv(blocks: nat, sorted: seq<Record>)
    requires blocks == 5 && DirInv(Holed(), blocks) && IsSortOf(sorted, Holed()[..NumUsed(Holed())])
    ensures !DirInv(CreateDir(Holed(), [Letter(3)], 4, sorted, blocks), blocks)
  {
    HoledShape();
    HoleMisleads();
    CreateKeepsInvIff(Holed(), [Letter(3)], 4, sorted, blocks);
  }

  /** A run from format after which create of a file of two blocks places it on live ones. */
  lemma StaleRecordMisleadsCreate(v: Volume) returns (cs: seq<Command>, v2: Volume, m2: map<seq<byte>, File>)
    requires v.blocks == 5 && |v.disk| >= 5 * BLOCK
    ensures Run(Format(v), map[], cs, v2, m2) && Inv(v2) && v2.dir == Holed()
    ensures forall sorted :: IsSortOf(sorted, Holed()[..NumUsed(Holed())]) ==>
              !Inv(v2.(dir := CreateDir(Holed(), [Letter(3)], 4, sorted, 5)))
    ensures var sorted := [Holed()[1], Holed()[2], Holed()[0]];
            && IsSortOf(sorted, Holed()[..NumUsed(Holed())]) && IsLive(Holed()[1])
            && CreateStart(Holed(), [Letter(3)], 4, sorted, 5) == Some(2) && Overlap(Holed()[1], 2, Blocks(4))
  {
    cs, m2 := HoleReached(v);
    v2 := v.(dir := Holed());
    HoledShape();
    HoleSearch();
    forall sorted | IsSortOf(sorted, Holed()[..NumUsed(Holed())])
      ensures !Inv(v2.(dir := CreateDir(Holed(), [Letter(3)], 4, sorted, 5)))
    {
      HoleBreaksInv(5, sorted);
    }
  }

  // ---------------------------------------------------------------- without the end marker

  /** Once the end marker is gone, create counts no records at all: it takes the first
      block whatever lies there. */
  lemma MissingMarkerIgnoresFiles(dir: seq<Record>, name: seq<byte>, maxsize: nat, sorted: seq<Record>, blocks: nat)
    requires EndIndex(dir) == |dir| && FindFile(dir, name) == |dir| && FreeEntry(dir) < |dir|
    requires 1 <= blocks < WORD32 / 2 && 1 <= Blocks(maxsize) <= blocks - 2 && IsSortOf(sorted, dir[..NumUsed(dir)])
    ensures CreateStart(dir, name, maxsize, sorted, blocks) == Some(1)
  {
    assert dir[..0] == [];
    assert |sorted| == |multiset(sorted)| == 0;
  }

  /** A run from format that fills all records but the last one; one more create succeeds and
      leaves a directory without end marker. */
  lemma LastRecordEndsMarker(v: Volume) returns (cs: seq<Command>, v2: Volume, m2: map<seq<byte>, File>)
    requires RECORDS + 2 <= v.blocks < WORD32 / 2 && |v.disk| >= v.blocks * BLOCK
    ensures Run(Format(v), map[], cs, v2, m2) && Inv(v2)
    ensures var c := NextCommand(RECORDS - 1);
            && IsSortOf(c.sorted, v2.dir[..NumUsed(v2.dir)]) && HasPlace(v2.dir, 1, v2.blocks)
            && EndIndex(Create(v2, c.name, 2, c.sorted).dir) == RECORDS
  {
    FormatIsEmpty(v);
    cs, m2 := FillFrom(v, 0, RECORDS - 1, false, map[]);
    v2 := Filled(v, RECORDS - 1, false);
    CreateNext(v2, RECORDS - 1);
    NextStart(RECORDS - 1, v2.blocks);
    FilesShape(RECORDS);
  }
}
