/**
  Bootloader/BMFS/bmfs.c over an in-memory disk and directory: findfile, format, create, read, write
  and delete as they run, proved against the directory operations of BmfsCreate.
 */
module Bmfs {
  import opened Bytes
  import opened Options
  import opened BmfsDirectory
  import opened BmfsCreate

  datatype WriteOutcome = Written | NotFound | NotEnoughSpace

  /** Where the bytes of a record start on the disk. */
  function Offset(e: BMFSEntry): nat { e.startingBlock * BLOCK_BYTES }

  /** Blocks of 2 MiB for a size in MiB, rounded up. */
  function BlocksFor(maxsize: nat): nat { (maxsize + maxsize % 2) / 2 }

  /** The bytes of the file of that name. */
  ghost function FileBytes(dir: seq<BMFSEntry>, disk: seq<byte>, name: string): Option<seq<byte>> {
    match FindFile(dir, name, 0)
    case None => None
    case Some(k) =>
      var e := dir[k];
      if Offset(e) + e.fileSize <= |disk| then Some(disk[Offset(e)..Offset(e) + e.fileSize]) else None
  }

  /** Every file of dir still reads the same under dir'. */
  ghost predicate FilesKeepBytes(dir: seq<BMFSEntry>, dir': seq<BMFSEntry>, disk: seq<byte>) {
    forall name :: FindFile(dir, name, 0).Some? ==> FileBytes(dir', disk, name) == FileBytes(dir, disk, name)
  }

  /** No live file is larger than its reservation. */
  ghost predicate SizesFit(dir: seq<BMFSEntry>) {
    forall i: nat | Live(dir, i) :: dir[i].fileSize <= dir[i].reservedBlocks * BLOCK_BYTES
  }

  lemma {:induction false} LiveIsFound(dir: seq<BMFSEntry>, i: nat, k: nat, limit: int)
    requires Safe(dir, limit) && Live(dir, k) && i <= k
    ensures FindFile(dir, dir[k].fileName, i) == Some(k)
    decreases k - i
  {
    var used := Used(dir);
    EndOfIs(dir, i, EndOf(dir, 0));
    if i < k {
      assert used[i] == dir[i] && used[k] == dir[k];
      LiveIsFound(dir, i + 1, k, limit);
    }
  }

  /** Keeping the live records, and no disk byte, keeps the bytes of every file. */
  lemma KeptFilesKeepBytes(dir: seq<BMFSEntry>, dir': seq<BMFSEntry>, disk: seq<byte>, limit: int)
    requires Safe(dir', limit) && KeepsLive(dir, dir')
    ensures FilesKeepBytes(dir, dir', disk)
  {
    forall name | FindFile(dir, name, 0).Some?
      ensures FileBytes(dir', disk, name) == FileBytes(dir, disk, name)
    {
      var k := FindFile(dir, name, 0).value;
      assert Live(dir, k);
      LiveIsFound(dir', 0, k, limit);
    }
  }

  lemma StillNotFound(dir: seq<BMFSEntry>, dir': seq<BMFSEntry>, name: string)
    requires FindFile(dir, name, 0).None?
    requires forall i: nat | Live(dir', i) && dir'[i].fileName == name :: Live(dir, i) && dir[i].fileName == name
    ensures FindFile(dir', name, 0).None?
  {
    var r := FindFile(dir', name, 0);
    assert r.Some? ==> Live(dir', r.value);
  }

  /** Writing inside the extent of one file leaves the bytes of every other file alone. */
  lemma OtherFilesUntouched(dir: seq<BMFSEntry>, disk: seq<byte>, disk': seq<byte>, slot: nat, size: nat, limit: nat,
                            name: string)
    requires Safe(dir, limit) && SizesFit(dir) && Live(dir, slot) && name != dir[slot].fileName
    requires size <= dir[slot].reservedBlocks * BLOCK_BYTES
    requires |disk| == |disk'| && limit * BLOCK_BYTES <= |disk|
    requires forall k | 0 <= k < |disk| && !(Offset(dir[slot]) <= k < Offset(dir[slot]) + size) :: disk'[k] == disk[k]
    ensures FileBytes(dir[slot := dir[slot].(fileSize := size)], disk', name) == FileBytes(dir, disk, name)
  {
    var dir', used := dir[slot := dir[slot].(fileSize := size)], Used(dir);
    WriteKeepsExtents(dir, slot, size, limit);
    match FindFile(dir, name, 0)
    case None => StillNotFound(dir, dir', name);
    case Some(k) =>
      assert Live(dir, k) && Live(dir', k) && k != slot && dir'[k] == dir[k];
      LiveIsFound(dir', 0, k, limit);
      assert used[k] == dir[k] && used[slot] == dir[slot];
      if k < slot { assert Disjoint(used[k], used[slot]); } else { assert Disjoint(used[slot], used[k]); }
      var e := dir[k];
      assert disk'[Offset(e)..Offset(e) + e.fileSize] == disk[Offset(e)..Offset(e) + e.fileSize];
  }

  lemma WriteKeepsExtents(dir: seq<BMFSEntry>, slot: nat, size: nat, limit: int)
    requires Safe(dir, limit) && Live(dir, slot)
    ensures var dir' := dir[slot := dir[slot].(fileSize := size)];
      Safe(dir', limit) && forall i: nat :: Live(dir', i) <==> Live(dir, i)
  {
    LiveIsFound(dir, 0, slot, limit);
    WriteIsSafe(dir, dir[slot].fileName, size, limit);
  }

  // ---------- What the commands mean on the disk, in blocks of 2097152 bytes ----------

  /** Every position outside the blocks reserved for e keeps its byte. */
  ghost predicate OnlyWithin(e: BMFSEntry, disk: seq<byte>, disk': seq<byte>) {
    && |disk'| == |disk|
    && forall k | 0 <= k < |disk| && !(e.startingBlock <= k / 2097152 < e.startingBlock + e.reservedBlocks) ::
         disk'[k] == disk[k]
  }

  /** The bytes lie on the disk from the first byte of the starting block on. */
  ghost predicate LiesAt(e: BMFSEntry, disk: seq<byte>, file: seq<byte>) {
    && e.startingBlock * 2097152 + |file| <= |disk|
    && forall j | 0 <= j < |file| :: file[j] == disk[e.startingBlock * 2097152 + j]
  }

  /** Block 0, with the directory, and everything from the last block of the disk on keep their bytes. */
  ghost predicate KeepsEnds(disksize: nat, disk: seq<byte>, disk': seq<byte>) {
    && |disk'| == |disk|
    && forall k | 0 <= k < |disk| && (k < 2097152 || (disksize / 2 - 1) * 2097152 <= k) :: disk'[k] == disk[k]
  }

  lemma WritesWithin(e: BMFSEntry, disk: seq<byte>, disk': seq<byte>, file: seq<byte>, disksize: nat)
    requires |file| <= e.reservedBlocks * BLOCK_BYTES && Offset(e) + |file| <= |disk|
    requires disk' == disk[..Offset(e)] + file + disk[Offset(e) + |file|..]
    requires 1 <= e.startingBlock && ExtentEnd(e) <= disksize / 2 - 1
    ensures LiesAt(e, disk', file) && OnlyWithin(e, disk, disk') && KeepsEnds(disksize, disk, disk')
  {
    WriteTouches(disk, disk', Offset(e), file);
    forall j | 0 <= j < |file| ensures file[j] == disk'[e.startingBlock * 2097152 + j] {
      assert disk'[Offset(e) + j] == file[j];
    }
  }

  /** The new record: its blocks hold maxsize MiB, and one block less would not. */
  ghost predicate ReservesFor(e: BMFSEntry, maxsize: nat) {
    maxsize * 1048576 <= e.reservedBlocks * 2097152 < maxsize * 1048576 + 2097152
  }

  /** The first record that is empty or deleted. */
  ghost predicate IsFirstFree(dir: seq<BMFSEntry>, slot: nat) {
    && slot < |dir| && !InUse(dir[slot]) && forall k | 0 <= k < slot :: InUse(dir[k])
  }

  predicate InUse(e: BMFSEntry) { e.fileName != "" && e.fileName[0] != 1 as char }

  /** Some file holds one of the n blocks from p on. */
  ghost predicate Occupied(dir: seq<BMFSEntry>, p: nat, n: nat) {
    exists k: nat :: Live(dir, k) && p < dir[k].startingBlock + dir[k].reservedBlocks && dir[k].startingBlock < p + n
  }

  /** No run of n blocks between block 0 and the last block of the disk is free of files. */
  ghost predicate NoRoomFor(dir: seq<BMFSEntry>, n: nat, disksize: nat) {
    forall p: nat | 1 <= p && p + n <= disksize / 2 - 1 :: Occupied(dir, p, n)
  }

  /** The file got the lowest free run of its length between block 0 and the last block of the disk. */
  ghost predicate GotLowestRun(dir: seq<BMFSEntry>, e: BMFSEntry, disksize: nat) {
    && 1 <= e.startingBlock && e.startingBlock + e.reservedBlocks <= disksize / 2 - 1
    && !Occupied(dir, e.startingBlock, e.reservedBlocks)
    && forall p: nat | 1 <= p < e.startingBlock :: Occupied(dir, p, e.reservedBlocks)
  }

  /** When there is no space, no run of enough blocks is free; otherwise the file got the lowest. */
  ghost predicate CompleteAndLowest(dir: seq<BMFSEntry>, dir': seq<BMFSEntry>, outcome: Outcome, name: string,
                                    maxsize: nat, disksize: nat)
  {
    && (outcome == NoSpace ==> forall n: nat | maxsize * 1048576 <= n * 2097152 :: NoRoomFor(dir, n, disksize))
    && (outcome.Created? ==> FileGotLowestRun(dir, dir', name, disksize))
  }

  ghost predicate FileGotLowestRun(dir: seq<BMFSEntry>, dir': seq<BMFSEntry>, name: string, disksize: nat) {
    match FindFile(dir', name, 0)
    case None => false
    case Some(k) => GotLowestRun(dir, dir'[k], disksize)
  }

  /** The first free record is now that of an empty file of that name, for up to maxsize MiB. */
  ghost predicate IsNewRecord(dir: seq<BMFSEntry>, dir': seq<BMFSEntry>, slot: nat, name: string, maxsize: nat,
                              start: nat)
  {
    && |dir'| == |dir| && IsFirstFree(dir, slot) && (forall k | 0 <= k < slot :: dir'[k] == dir[k])
    && dir'[slot].fileName == name && dir'[slot].startingBlock == start && dir'[slot].fileSize == 0
    && ReservesFor(dir'[slot], maxsize)
  }

  /** What create promises of its outcome, whatever the directory held. */
  ghost predicate CreatesRecord(dir: seq<BMFSEntry>, dir': seq<BMFSEntry>, outcome: Outcome, name: string, maxsize: nat)
  {
    && (outcome.AlreadyExists? <==> exists k: nat :: Live(dir, k) && dir[k].fileName == name)
    && (outcome.NoFreeEntry? ==> forall k | 0 <= k < |dir| :: InUse(dir[k]))
    && (!outcome.Created? ==> dir' == dir)
    && (outcome.Created? ==> exists slot: nat :: IsNewRecord(dir, dir', slot, name, maxsize, outcome.start))
  }

  lemma FirstFreeMeans(dir: seq<BMFSEntry>)
    ensures match FirstFree(dir, 0)
      case Some(slot) => IsFirstFree(dir, slot)
      case None => forall k | 0 <= k < |dir| :: InUse(dir[k])
  {
    if FirstFree(dir, 0).Some? { FirstFreeIsFirst(dir, 0); }
  }

  /** Rounding up to whole blocks. */
  lemma RoundsUp(maxsize: nat)
    ensures maxsize * 1048576 <= BlocksFor(maxsize) * 2097152 < maxsize * 1048576 + 2097152
    ensures forall n: nat | maxsize * 1048576 <= n * 2097152 :: BlocksFor(maxsize) <= n
  {
  }

  lemma CreatesMeans(dir: seq<BMFSEntry>, dir': seq<BMFSEntry>, outcome: Outcome, name: string, maxsize: nat,
                     limit: nat, repaired: bool)
    requires Creates(dir, dir', outcome, name, BlocksFor(maxsize), limit, repaired)
    ensures CreatesRecord(dir, dir', outcome, name, maxsize)
  {
    FirstFreeMeans(dir);
    RoundsUp(maxsize);
    assert FindFile(dir, name, 0).Some? ==> Live(dir, FindFile(dir, name, 0).value);
    if outcome.Created? {
      var slot := FirstFree(dir, 0).value;
      assert IsNewRecord(dir, dir', slot, name, maxsize, outcome.start);
    }
  }

  lemma OccupiedIff(dir: seq<BMFSEntry>, limit: int, n: nat, p: nat)
    requires 1 <= p && p + n <= limit
    ensures Fits(Used(dir), limit, n, p) <==> !Occupied(dir, p, n)
  {
    var used := Used(dir);
    if !Fits(used, limit, n, p) {
      var k :| 0 <= k < |used| && !IsDeleted(used[k]) && !(p + n <= used[k].startingBlock || ExtentEnd(used[k]) <= p);
      assert Live(dir, k) && used[k] == dir[k];
    }
    if Occupied(dir, p, n) {
      var k: nat :| Live(dir, k) && p < dir[k].startingBlock + dir[k].reservedBlocks && dir[k].startingBlock < p + n;
      assert used[k] == dir[k];
    }
  }

  /** No room for the blocks needed means room for no larger file either. */
  lemma NoSpaceMeans(dir: seq<BMFSEntry>, limit: int, blocks: nat, disksize: nat, n: nat)
    requires limit == disksize / 2 - 1 && blocks <= n
    requires forall p: nat :: !Fits(Used(dir), limit, blocks, p)
    ensures NoRoomFor(dir, n, disksize)
  {
    forall p: nat | 1 <= p && p + n <= disksize / 2 - 1 ensures Occupied(dir, p, n) {
      assert !Fits(Used(dir), limit, blocks, p);
      OccupiedIff(dir, limit, blocks, p);
    }
  }

  /** A new record is found under its name. */
  lemma NewRecordIsFound(dir: seq<BMFSEntry>, dir': seq<BMFSEntry>, slot: nat, name: string, maxsize: nat, start: nat,
                         limit: int)
    requires IsNewRecord(dir, dir', slot, name, maxsize, start) && ValidName(name) && Safe(dir', limit)
    ensures FindFile(dir', name, 0) == Some(slot)
  {
    assert forall k | 0 <= k < slot :: InUse(dir[k]) && dir'[k] == dir[k];
    assert Live(dir', slot);
    LiveIsFound(dir', 0, slot, limit);
  }

  class Disk {
    /** false: create as written; true: with the two repairs BmfsCreate names. */
    const repaired: bool
    /** In MiB. */
    const disksize: nat
    const directory: array<BMFSEntry>
    const disk: array<byte>

    ghost function Limit(): int { disksize / 2 - 1 }

    ghost predicate Shaped() {
      && directory.Length == RECORDS && disk.Length == disksize * 1048576
      && 4 <= disksize < 0x1_0000_0000
    }

    ghost predicate Valid()
      reads directory
    {
      Shaped() && Safe(directory[..], Limit()) && SizesFit(directory[..])
    }

    constructor (image: array<byte>, disksize: nat, repaired: bool)
      requires image.Length == disksize * 1048576 && 4 <= disksize < 0x1_0000_0000
      ensures Valid() && fresh(directory) && disk == image && this.disksize == disksize && this.repaired == repaired
      ensures forall i | 0 <= i < RECORDS :: IsEnd(directory[i])
    {
      this.repaired := repaired;
      this.disksize := disksize;
      disk := image;
      directory := new BMFSEntry[RECORDS](_ => BMFSEntry("", 0, 0, 0));
      new;
      assert EndOf(directory[..], 0) == 0;
    }

    /** findfile */
    method FindEntry(filename: string) returns (found: bool, fileEntry: BMFSEntry, entryNumber: nat)
      requires Shaped()
      ensures match FindFile(directory[..], filename, 0)
        case None => !found
        case Some(k) => found && entryNumber == k && fileEntry == directory[k]
    {
      var tint := 0;
      fileEntry, entryNumber := BMFSEntry("", 0, 0, 0), 0;
      while tint < RECORDS
        invariant 0 <= tint <= RECORDS
        invariant FindFile(directory[..], filename, 0) == FindFile(directory[..], filename, tint)
      {
        var entry := directory[tint];
        if IsEnd(entry) {
          return false, fileEntry, entryNumber;
        } else if IsDeleted(entry) {
        } else if filename == entry.fileName {
          return true, entry, tint;
        }
        tint := tint + 1;
      }
      found := false;
    }

    /** format clears every record. */
    method Format()
      requires Shaped()
      modifies directory
      ensures Valid() && forall i | 0 <= i < RECORDS :: IsEnd(directory[i])
    {
      for i := 0 to RECORDS
        invariant forall k | 0 <= k < i :: IsEnd(directory[k])
      {
        directory[i] := BMFSEntry("", 0, 0, 0);
      }
      assert EndOf(directory[..], 0) == 0;
    }

    /** create, of at least one MiB. */
    method Create(filename: string, maxsize: nat) returns (outcome: Outcome)
      requires Valid() && ValidName(filename) && 1 <= maxsize < 0x8000_0000
      modifies directory
      ensures Creates(old(directory[..]), directory[..], outcome, filename, BlocksFor(maxsize), Limit(), repaired)
      ensures CreatesRecord(old(directory[..]), directory[..], outcome, filename, maxsize)
      ensures repaired ==>
        CompleteAndLowest(old(directory[..]), directory[..], outcome, filename, maxsize, disksize)
      ensures repaired || old(WrittenCreateIsSafe(directory[..], filename, BlocksFor(maxsize), Limit())) ==>
        && Valid() && KeepsLive(old(directory[..]), directory[..])
        && FilesKeepBytes(old(directory[..]), directory[..], disk[..])
    {
      var size := maxsize;
      if size % 2 != 0 {
        size := size + 1;
      }
      ghost var dir := directory[..];
      outcome := CreateBlocks(filename, size / 2);
      assert size / 2 == BlocksFor(maxsize);
      CreateEffect(dir, directory[..], disk[..], outcome, filename, size / 2, Limit(), repaired);
      CreatesMeans(dir, directory[..], outcome, filename, maxsize, Limit(), repaired);
      if repaired { CreateWhenRepaired(dir, directory[..], outcome, filename, maxsize, disksize); }
    }

    /** create, once the size is rounded up to whole blocks. */
    method CreateBlocks(filename: string, blocksRequested: nat) returns (outcome: Outcome)
      requires Valid() && ValidName(filename) && blocksRequested >= 1
      modifies directory
      ensures Creates(old(directory[..]), directory[..], outcome, filename, blocksRequested, Limit(), repaired)
    {
      var found, _, _ := FindEntry(filename);
      if found {
        return AlreadyExists;
      }
      ghost var dir := directory[..];
      var numBlocks := disksize / 2;
      var numUsed, firstFree := CountRecords();
      if firstFree.None? {
        return NoFreeEntry;
      }
      var dirCopy := Qsort(directory[..numUsed]);
      assert |dirCopy| == |multiset(dirCopy)| == numUsed;
      var newFileStart := ScanCopy(dirCopy, numBlocks - 1, blocksRequested);
      if newFileStart.None? {
        return NoSpace;
      }
      directory[firstFree.value] := BMFSEntry(filename, newFileStart.value, blocksRequested, 0);
      if firstFree.value == numUsed && numUsed + 1 < RECORDS {
        directory[numUsed + 1] := directory[numUsed + 1].(fileName := "");
      }
      assert directory[..] ==
        Record(dir, firstFree.value, numUsed, BMFSEntry(filename, newFileStart.value, blocksRequested, 0));
      return Created(newFileStart.value);
    }

    /** The loop that counts the used records and finds the first free one. */
    method CountRecords() returns (numUsed: nat, firstFree: Option<nat>)
      requires Shaped()
      ensures numUsed == NumUsed(directory[..], repaired) && firstFree == FirstFree(directory[..], 0)
    {
      numUsed, firstFree := if repaired then RECORDS else 0, None;
      var tint := 0;
      while tint < RECORDS
        invariant 0 <= tint <= RECORDS && numUsed == if repaired then RECORDS else 0
        invariant EndOf(directory[..], 0) == EndOf(directory[..], tint)
        invariant FirstFree(directory[..], 0) == if firstFree.Some? then firstFree else FirstFree(directory[..], tint)
      {
        if IsEnd(directory[tint]) {
          numUsed := tint;
          if firstFree.None? {
            firstFree := Some(tint);
          }
          break;
        } else if IsDeleted(directory[tint]) {
          if firstFree.None? {
            firstFree := Some(tint);
          }
        }
        tint := tint + 1;
      }
    }

    /** The loop that looks for a gap in the sorted copy. */
    method ScanCopy(dirCopy: seq<BMFSEntry>, lastBlock: nat, blocksRequested: nat) returns (newFileStart: Option<nat>)
      ensures newFileStart == Scan(dirCopy, 0, 1, lastBlock, blocksRequested, repaired)
    {
      var prevFileEnd: nat := 1;
      var tint := 0;
      while tint < |dirCopy| + 1
        invariant 0 <= tint <= |dirCopy| + 1
        invariant Scan(dirCopy, 0, 1, lastBlock, blocksRequested, repaired) ==
          if tint <= |dirCopy| then Scan(dirCopy, tint, prevFileEnd, lastBlock, blocksRequested, repaired) else None
      {
        var thisFileStart;
        if tint == |dirCopy| || IsDeleted(dirCopy[tint]) {
          thisFileStart := lastBlock;
        } else {
          thisFileStart := dirCopy[tint].startingBlock;
        }
        if Sub64(thisFileStart, prevFileEnd) >= blocksRequested {
          return Some(prevFileEnd);
        }
        if tint < |dirCopy| && !(repaired && IsDeleted(dirCopy[tint])) {
          prevFileEnd := dirCopy[tint].startingBlock + dirCopy[tint].reservedBlocks;
        }
        tint := tint + 1;
      }
      return None;
    }

    /** read, into a local file. */
    method Read(filename: string) returns (file: Option<seq<byte>>)
      requires Valid()
      ensures file == FileBytes(directory[..], disk[..], filename)
      ensures match FindFile(directory[..], filename, 0)
        case None => file.None?
        case Some(k) =>
          file.Some? && |file.value| == directory[k].fileSize && LiesAt(directory[k], disk[..], file.value)
    {
      var found, tempEntry, slot := FindEntry(filename);
      if !found {
        return None;
      }
      assert Live(directory[..], slot) && Used(directory[..])[slot] == tempEntry;
      var position := tempEntry.startingBlock * BLOCK_BYTES;
      var out: seq<byte> := [];
      for tint := 0 to tempEntry.fileSize
        invariant position + tempEntry.fileSize <= disk.Length
        invariant out == disk[position..position + tint]
      {
        out := out + [disk[position + tint]];
      }
      return Some(out);
    }

    /** write, from a local file shorter than 2^31 bytes. */
    method Write(filename: string, file: seq<byte>) returns (outcome: WriteOutcome)
      requires Valid() && |file| < 0x8000_0000 && disk as object != directory
      modifies directory, disk
      ensures Valid()
      ensures outcome == NotFound <==> old(FindFile(directory[..], filename, 0).None?)
      ensures outcome != Written ==> directory[..] == old(directory[..]) && disk[..] == old(disk[..])
      ensures outcome != NotFound ==>
        var slot := old(FindFile(directory[..], filename, 0).value);
        && (outcome == Written <==> |file| <= old(directory[slot]).reservedBlocks * 2097152)
        && (outcome == Written ==>
            directory[..] == old(directory[..])[slot := old(directory[slot]).(fileSize := |file|)])
      ensures outcome == Written ==>
        var e := old(directory[FindFile(directory[..], filename, 0).value]);
        LiesAt(e, disk[..], file) && OnlyWithin(e, old(disk[..]), disk[..])
      ensures KeepsEnds(disksize, old(disk[..]), disk[..])
      ensures outcome == Written ==>
        && FileBytes(directory[..], disk[..], filename) == Some(file)
        && forall name | name != filename ::
             FileBytes(directory[..], disk[..], name) == old(FileBytes(directory[..], disk[..], name))
    {
      ghost var dir, bytes := directory[..], disk[..];
      var found, tempEntry, slot := FindEntry(filename);
      if !found {
        return NotFound;
      }
      if tempEntry.reservedBlocks * BLOCK_BYTES < |file| {
        return NotEnoughSpace;
      }
      assert Live(dir, slot) && Used(dir)[slot] == tempEntry;
      PutBytes(tempEntry.startingBlock * BLOCK_BYTES, file);
      directory[slot] := directory[slot].(fileSize := |file|);
      assert directory[..] == dir[slot := tempEntry.(fileSize := |file|)];
      WritesWithin(tempEntry, bytes, disk[..], file, disksize);
      WriteEffect(dir, bytes, disk[..], slot, file, Limit(), filename);
      return Written;
    }

    /** The putc loop of write. */
    method PutBytes(position: nat, file: seq<byte>)
      requires position + |file| <= disk.Length && disk as object != directory
      modifies disk
      ensures disk[..] == old(disk[..position]) + file + old(disk[position + |file|..])
    {
      for tint := 0 to |file|
        invariant disk[..position] == old(disk[..position])
        invariant disk[position..position + tint] == file[..tint]
        invariant disk[position + tint..] == old(disk[position + tint..])
      {
        ghost var rest := disk[position + tint..];
        disk[position + tint] := file[tint];
        assert disk[position + tint + 1..] == rest[1..];
      }
      assert disk[..] == disk[..position] + disk[position..position + |file|] + disk[position + |file|..];
    }

    /** delete */
    method Delete(filename: string) returns (deleted: bool)
      requires Valid()
      modifies directory
      ensures Valid() && deleted == old(FindFile(directory[..], filename, 0).Some?)
      ensures FindFile(directory[..], filename, 0).None?
      ensures deleted ==>
        var slot := old(FindFile(directory[..], filename, 0).value);
        var e := old(directory[slot]);
        directory[..] == old(directory[..])[slot := e.(fileName := [1 as char] + e.fileName[1..])]
      ensures !deleted ==> directory[..] == old(directory[..])
      ensures forall name | name != filename ::
        FileBytes(directory[..], disk[..], name) == old(FileBytes(directory[..], disk[..], name))
    {
      ghost var dir := directory[..];
      var found, tempEntry, slot := FindEntry(filename);
      if found {
        directory[slot] := directory[slot].(fileName := [DELETED] + directory[slot].fileName[1..]);
        assert directory[..] == dir[slot := Deleted(dir[slot])];
        DeleteEffect(dir, disk[..], filename, Limit());
      }
      return found;
    }
  }

  /** The repaired create: when it finds no room there is none, and otherwise it takes the lowest. */
  lemma CreateWhenRepaired(dir: seq<BMFSEntry>, dir': seq<BMFSEntry>, outcome: Outcome, name: string, maxsize: nat,
                           disksize: nat)
    requires 4 <= disksize < 0x1_0000_0000 && Safe(dir, disksize / 2 - 1) && ValidName(name) && maxsize >= 1
    requires Creates(dir, dir', outcome, name, BlocksFor(maxsize), disksize / 2 - 1, true)
    ensures CompleteAndLowest(dir, dir', outcome, name, maxsize, disksize)
  {
    var blocks, limit := BlocksFor(maxsize), disksize / 2 - 1;
    RepairedCreate(dir, dir', outcome, name, blocks, limit);
    RoundsUp(maxsize);
    if outcome == NoSpace {
      forall n: nat | maxsize * 1048576 <= n * 2097152 ensures NoRoomFor(dir, n, disksize) {
        NoSpaceMeans(dir, limit, blocks, disksize, n);
      }
    }
    if outcome.Created? {
      LiveIsFound(dir', 0, FirstFree(dir, 0).value, limit);
      OccupiedIff(dir, limit, blocks, outcome.start);
      forall p: nat | 1 <= p < outcome.start ensures Occupied(dir, p, blocks) {
        OccupiedIff(dir, limit, blocks, p);
      }
    }
  }

  lemma CreateEffect(dir: seq<BMFSEntry>, dir': seq<BMFSEntry>, disk: seq<byte>, outcome: Outcome, name: string,
                     blocks: nat, limit: nat, repaired: bool)
    requires Safe(dir, limit) && SizesFit(dir) && ValidName(name) && blocks >= 1 && 1 <= limit < 0x8000_0000
    requires Creates(dir, dir', outcome, name, blocks, limit, repaired)
    ensures repaired || WrittenCreateIsSafe(dir, name, blocks, limit) ==>
      && Safe(dir', limit) && SizesFit(dir') && KeepsLive(dir, dir')
      && FilesKeepBytes(dir, dir', disk)
  {
    if repaired {
      RepairedCreate(dir, dir', outcome, name, blocks, limit);
    } else {
      WrittenCreateIff(dir, dir', outcome, name, blocks, limit);
    }
    if repaired || WrittenCreateIsSafe(dir, name, blocks, limit) {
      KeptFilesKeepBytes(dir, dir', disk, limit);
      CreatedSizesFit(dir, dir', outcome, name, blocks, limit, repaired);
    }
  }

  lemma CreatedSizesFit(dir: seq<BMFSEntry>, dir': seq<BMFSEntry>, outcome: Outcome, name: string, blocks: nat,
                        limit: nat, repaired: bool)
    requires Safe(dir, limit) && SizesFit(dir) && Safe(dir', limit)
    requires Creates(dir, dir', outcome, name, blocks, limit, repaired) && name != ""
    ensures SizesFit(dir')
  {
    if FindFile(dir, name, 0).None? && FirstFree(dir, 0).Some? && dir' != dir {
      var slot := FirstFree(dir, 0).value;
      forall i: nat | Live(dir', i) ensures dir'[i].fileSize <= dir'[i].reservedBlocks * BLOCK_BYTES {
        if i != slot {
          LiveBeforeRecord(dir, slot, repaired, dir'[slot], dir', i);
        }
      }
    }
  }

  /** A record brings no other file to life. */
  lemma LiveBeforeRecord(dir: seq<BMFSEntry>, slot: nat, repaired: bool, e: BMFSEntry, dir': seq<BMFSEntry>, i: nat)
    requires FirstFree(dir, 0) == Some(slot) && dir' == Record(dir, slot, NumUsed(dir, repaired), e) && !IsEnd(e)
    requires Live(dir', i) && i != slot
    ensures Live(dir, i) && dir'[i] == dir[i]
  {
    var end, numUsed := EndOf(dir, 0), NumUsed(dir, repaired);
    if slot == numUsed <==> slot == end {
      RecordedUsed(dir, slot, numUsed, e);
      assert Used(dir')[i] == dir'[i];
    }
  }

  lemma WriteEffect(dir: seq<BMFSEntry>, disk: seq<byte>, disk': seq<byte>, slot: nat, file: seq<byte>, limit: nat,
                    filename: string)
    requires Safe(dir, limit) && SizesFit(dir) && FindFile(dir, filename, 0) == Some(slot)
    requires |file| <= dir[slot].reservedBlocks * BLOCK_BYTES && (limit + 1) * BLOCK_BYTES <= |disk|
    requires Offset(dir[slot]) + |file| <= |disk|
    requires disk' == disk[..Offset(dir[slot])] + file + disk[Offset(dir[slot]) + |file|..]
    ensures var dir' := dir[slot := dir[slot].(fileSize := |file|)];
      && Safe(dir', limit) && SizesFit(dir')
      && FileBytes(dir', disk', filename) == Some(file)
      && forall name | name != filename :: FileBytes(dir', disk', name) == FileBytes(dir, disk, name)
  {
    var dir' := dir[slot := dir[slot].(fileSize := |file|)];
    WriteIsSafe(dir, filename, |file|, limit);
    assert Live(dir, slot);
    assert FileBytes(dir', disk', filename) == Some(file) by { LiveIsFound(dir', 0, slot, limit); }
    forall name | name != filename ensures FileBytes(dir', disk', name) == FileBytes(dir, disk, name) {
      WriteTouches(disk, disk', Offset(dir[slot]), file);
      OtherFilesUntouched(dir, disk, disk', slot, |file|, limit, name);
    }
  }

  lemma WriteTouches(disk: seq<byte>, disk': seq<byte>, position: nat, file: seq<byte>)
    requires position + |file| <= |disk| && disk' == disk[..position] + file + disk[position + |file|..]
    ensures |disk'| == |disk|
    ensures forall k | 0 <= k < |disk| && !(position <= k < position + |file|) :: disk'[k] == disk[k]
  {
  }

  lemma DeleteEffect(dir: seq<BMFSEntry>, disk: seq<byte>, filename: string, limit: int)
    requires Safe(dir, limit) && SizesFit(dir) && FindFile(dir, filename, 0).Some?
    ensures var slot := FindFile(dir, filename, 0).value;
      var dir' := dir[slot := Deleted(dir[slot])];
      && Safe(dir', limit) && SizesFit(dir') && FindFile(dir', filename, 0).None?
      && forall name | name != filename :: FileBytes(dir', disk, name) == FileBytes(dir, disk, name)
  {
    var slot := FindFile(dir, filename, 0).value;
    var dir' := dir[slot := Deleted(dir[slot])];
    DeleteIsSafe(dir, filename, limit);
    forall i: nat | Live(dir', i) ensures i != slot && Live(dir, i) && dir'[i] == dir[i] {
      EndOfIs(dir', 0, EndOf(dir, 0));
    }
    forall name | name != filename ensures FileBytes(dir', disk, name) == FileBytes(dir, disk, name) {
      match FindFile(dir, name, 0)
      case None => StillNotFound(dir, dir', name);
      case Some(k) =>
        assert Live(dir, k);
        LiveIsFound(dir', 0, k, limit);
    }
  }

  /** create, write and read in a row: a created file takes every file of up to maxsize MiB and gives it back. */
  method CreateWriteRead(d: Disk, filename: string, maxsize: nat, file: seq<byte>)
    returns (created: Outcome, read: Option<seq<byte>>)
    requires d.Valid() && d.disk as object != d.directory
    requires ValidName(filename) && 1 <= maxsize < 0x8000_0000 && |file| < 0x8000_0000
    requires |file| <= maxsize * 1048576
    requires d.repaired || WrittenCreateIsSafe(d.directory[..], filename, BlocksFor(maxsize), d.Limit())
    modifies d.directory, d.disk
    ensures d.Valid() && (created.Created? ==> read == Some(file))
  {
    ghost var dir := d.directory[..];
    created := d.Create(filename, maxsize);
    if created.Created? { FitsAfterCreate(dir, d.directory[..], filename, maxsize, created.start, d.Limit()); }
    var written := d.Write(filename, file);
    read := d.Read(filename);
  }

  lemma FitsAfterCreate(dir: seq<BMFSEntry>, dir': seq<BMFSEntry>, name: string, maxsize: nat, start: nat, limit: int)
    requires exists slot: nat :: IsNewRecord(dir, dir', slot, name, maxsize, start)
    requires ValidName(name) && Safe(dir', limit)
    ensures match FindFile(dir', name, 0)
      case None => false
      case Some(k) => maxsize * 1048576 <= dir'[k].reservedBlocks * 2097152
  {
    var slot: nat :| IsNewRecord(dir, dir', slot, name, maxsize, start);
    NewRecordIsFound(dir, dir', slot, name, maxsize, start, limit);
  }
}
