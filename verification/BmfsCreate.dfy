/**
  What create and delete do to a BMFS directory: when they keep the live files safe, for the scan as
  written and as repaired.  The repair is two assignments: the record count of a full directory is
  64, and a deleted record does not move the end of the previous file.
 */
module BmfsCreate {
  import opened Options
  import opened BmfsDirectory

  /** findfile: the live record of that name, searching from record i. */
  function FindFile(dir: seq<BMFSEntry>, name: string, i: nat): (r: Option<nat>)
    requires i <= |dir|
    ensures r.Some? ==> i <= r.value < EndOf(dir, i) && !IsDeleted(dir[r.value]) && dir[r.value].fileName == name
    ensures r.None? ==> forall k | i <= k < EndOf(dir, i) && !IsDeleted(dir[k]) :: dir[k].fileName != name
    decreases |dir| - i
  {
    if i == |dir| || IsEnd(dir[i]) then None
    else if !IsDeleted(dir[i]) && dir[i].fileName == name then Some(i)
    else FindFile(dir, name, i + 1)
  }

  /** The record create will use: the first deleted one, or the end mark. */
  function FirstFree(dir: seq<BMFSEntry>, i: nat): (r: Option<nat>)
    requires i <= |dir|
    ensures r.Some? ==> i <= r.value <= EndOf(dir, i) && r.value < |dir|
    ensures r.Some? && r.value < EndOf(dir, i) ==> IsDeleted(dir[r.value])
    ensures r.None? <==> EndOf(dir, i) == |dir| && forall k | i <= k < |dir| :: !IsDeleted(dir[k])
    decreases |dir| - i
  {
    if i == |dir| then None
    else if IsEnd(dir[i]) || IsDeleted(dir[i]) then Some(i)
    else FirstFree(dir, i + 1)
  }

  /** num_used_entries: as written it stays 0 when no record carries the end mark. */
  function NumUsed(dir: seq<BMFSEntry>, repaired: bool): (n: nat)
    ensures n <= |dir|
  {
    var end := EndOf(dir, 0);
    if end < |dir| || repaired then end else 0
  }

  /** Writes the new record, and the end mark behind it when it took the place of the old one. */
  function Record(dir: seq<BMFSEntry>, slot: nat, numUsed: nat, e: BMFSEntry): (r: seq<BMFSEntry>)
    requires slot < |dir|
    ensures |r| == |dir|
  {
    var dir' := dir[slot := e];
    if slot == numUsed && numUsed + 1 < |dir| then dir'[numUsed + 1 := dir'[numUsed + 1].(fileName := "")] else dir'
  }

  datatype Outcome = Created(start: nat) | AlreadyExists | NoFreeEntry | NoSpace

  /** One call of create, for whatever order qsort leaves equal records in. */
  ghost predicate Creates(dir: seq<BMFSEntry>, dir': seq<BMFSEntry>, outcome: Outcome, name: string, blocks: nat,
                          limit: nat, repaired: bool)
  {
    if FindFile(dir, name, 0).Some? then dir' == dir && outcome == AlreadyExists
    else match FirstFree(dir, 0)
      case None => dir' == dir && outcome == NoFreeEntry
      case Some(slot) =>
        var numUsed := NumUsed(dir, repaired);
        exists s: seq<BMFSEntry> ::
          && multiset(s) == multiset(dir[..numUsed]) && Sorted(s)
          && match Scan(s, 0, 1, limit, blocks, repaired)
             case None => dir' == dir && outcome == NoSpace
             case Some(p) =>
               dir' == Record(dir, slot, numUsed, BMFSEntry(name, p, blocks, 0)) && outcome == Created(p)
  }

  /** Every live file is still there, at the same record and unchanged. */
  ghost predicate KeepsLive(dir: seq<BMFSEntry>, dir': seq<BMFSEntry>) {
    forall i: nat | Live(dir, i) :: Live(dir', i) && dir'[i] == dir[i]
  }

  lemma {:induction false} EndOfIs(dir: seq<BMFSEntry>, i: nat, end: nat)
    requires i <= end <= |dir| && (forall k | i <= k < end :: !IsEnd(dir[k])) && (end < |dir| ==> IsEnd(dir[end]))
    ensures EndOf(dir, i) == end
    decreases |dir| - i
  {
    if i < end { EndOfIs(dir, i + 1, end); }
  }

  /** A new record in the first free place: the used records become the old ones with it among them. */
  lemma RecordedUsed(dir: seq<BMFSEntry>, slot: nat, numUsed: nat, e: BMFSEntry)
    requires FirstFree(dir, 0) == Some(slot) && !IsEnd(e)
    requires slot == numUsed <==> slot == EndOf(dir, 0)
    ensures var used := Used(dir);
      slot <= |used| && Used(Record(dir, slot, numUsed, e)) == Added(used, slot, e)
  {
    var end := EndOf(dir, 0);
    EndOfIs(Record(dir, slot, numUsed, e), 0, if slot < end then end else end + 1);
  }

  /** Recording a new name keeps a directory safe exactly when its blocks are free. */
  lemma RecordSafeIff(dir: seq<BMFSEntry>, slot: nat, numUsed: nat, e: BMFSEntry, limit: int)
    requires Safe(dir, limit) && FirstFree(dir, 0) == Some(slot) && FindFile(dir, e.fileName, 0).None?
    requires slot == numUsed <==> slot == EndOf(dir, 0)
    requires ValidName(e.fileName) && 1 <= e.startingBlock && 1 <= e.reservedBlocks && ExtentEnd(e) <= limit
    ensures var dir' := Record(dir, slot, numUsed, e);
      && (Safe(dir', limit) <==> Fits(Used(dir), limit, e.reservedBlocks, e.startingBlock))
      && KeepsLive(dir, dir') && Live(dir', slot) && dir'[slot] == e
      && FindFile(dir', e.fileName, 0).Some?
  {
    var used, dir' := Used(dir), Record(dir, slot, numUsed, e);
    RecordedUsed(dir, slot, numUsed, e);
    AddedApartIff(used, slot, e, limit);
    KeptByRecord(dir, slot, numUsed, e);
  }

  /** used with the record e added at slot, or in place of the deleted record there. */
  function Added(used: seq<BMFSEntry>, slot: nat, e: BMFSEntry): (r: seq<BMFSEntry>)
    requires slot <= |used|
    ensures |r| >= |used| && slot < |r| && r[slot] == e
    ensures forall k | 0 <= k < |r| && k != slot :: k < |used| && r[k] == used[k]
  {
    if slot < |used| then used[slot := e] else used + [e]
  }

  lemma AddedApartIff(used: seq<BMFSEntry>, slot: nat, e: BMFSEntry, limit: int)
    requires InRange(used, limit) && Apart(used) && slot <= |used| && (slot < |used| ==> IsDeleted(used[slot]))
    requires forall k | 0 <= k < |used| && !IsDeleted(used[k]) :: used[k].fileName != e.fileName
    requires !IsDeleted(e) && 1 <= e.startingBlock && 1 <= e.reservedBlocks && ExtentEnd(e) <= limit
    ensures InRange(Added(used, slot, e), limit)
    ensures Apart(Added(used, slot, e)) <==> Fits(used, limit, e.reservedBlocks, e.startingBlock)
  {
    var r := Added(used, slot, e);
    if Apart(r) {
      forall k | 0 <= k < |used| && !IsDeleted(used[k])
        ensures ExtentEnd(e) <= used[k].startingBlock || ExtentEnd(used[k]) <= e.startingBlock
      {
        assert r[k] == used[k] && k != slot;
        if k < slot { assert Disjoint(r[k], r[slot]); } else { assert Disjoint(r[slot], r[k]); }
      }
    }
  }

  lemma KeptByRecord(dir: seq<BMFSEntry>, slot: nat, numUsed: nat, e: BMFSEntry)
    requires FirstFree(dir, 0) == Some(slot) && !IsEnd(e) && !IsDeleted(e)
    requires slot == numUsed <==> slot == EndOf(dir, 0)
    ensures var dir' := Record(dir, slot, numUsed, e);
      && KeepsLive(dir, dir') && Live(dir', slot) && dir'[slot] == e
      && FindFile(dir', e.fileName, 0).Some?
  {
    var used, dir' := Used(dir), Record(dir, slot, numUsed, e);
    RecordedUsed(dir, slot, numUsed, e);
    var used' := Used(dir');
    assert used'[slot] == e && dir'[slot] == e;
    forall i: nat | Live(dir, i) ensures Live(dir', i) && dir'[i] == dir[i] {
      assert used[i] == dir[i] && used'[i] == used[i];
    }
  }

  // ---------- create, repaired ----------

  /** The repaired create: complete, lowest first, and safe whatever the directory holds. */
  lemma RepairedCreate(dir: seq<BMFSEntry>, dir': seq<BMFSEntry>, outcome: Outcome, name: string, blocks: nat,
                       limit: nat)
    requires Safe(dir, limit) && ValidName(name) && blocks >= 1 && 1 <= limit < 0x8000_0000
    requires Creates(dir, dir', outcome, name, blocks, limit, true)
    ensures Safe(dir', limit) && KeepsLive(dir, dir')
    ensures FindFile(dir, name, 0).None? && FirstFree(dir, 0).Some? ==>
      match LowestFit(Used(dir), limit, blocks, 1)
      case None => outcome == NoSpace && dir' == dir
      case Some(p) =>
        var slot := FirstFree(dir, 0).value;
        outcome == Created(p) && Live(dir', slot) && dir'[slot] == BMFSEntry(name, p, blocks, 0)
  {
    if FindFile(dir, name, 0).None? && FirstFree(dir, 0).Some? {
      var slot, numUsed := FirstFree(dir, 0).value, NumUsed(dir, true);
      var s :| multiset(s) == multiset(dir[..numUsed]) && Sorted(s)
        && match Scan(s, 0, 1, limit, blocks, true)
           case None => dir' == dir && outcome == NoSpace
           case Some(p) =>
             dir' == Record(dir, slot, numUsed, BMFSEntry(name, p, blocks, 0)) && outcome == Created(p);
      ScanOfDirectory(dir, s, limit, blocks);
      match LowestFit(Used(dir), limit, blocks, 1)
      case None =>
      case Some(p) => RecordSafeIff(dir, slot, numUsed, BMFSEntry(name, p, blocks, 0), limit);
    }
  }

  // ---------- create, as written ----------

  /** What a caller can check before the call: the two branches of create that go wrong are not taken. */
  ghost predicate WrittenCreateIsSafe(dir: seq<BMFSEntry>, name: string, blocks: nat, limit: nat) {
    var used := Used(dir);
    || FindFile(dir, name, 0).Some? || FirstFree(dir, 0).None?
    || (|used| < |dir| && (LowestFit(used, limit, blocks, 1).Some? || !StaleRoom(used, limit, blocks)))
    || (|used| == |dir| && (1 + blocks > limit || (Fits(used, limit, blocks, 1) && FirstRecordMayGo(dir))))
  }

  /** Reusing record 0 of a full directory also writes an end mark over record 1. */
  ghost predicate FirstRecordMayGo(dir: seq<BMFSEntry>) {
    |dir| > 0 && (!IsDeleted(dir[0]) || forall i | 0 <= i < |dir| :: IsDeleted(dir[i]))
  }

  /** create as written keeps every live file and the safety of the directory if and only if that holds. */
  lemma WrittenCreateIff(dir: seq<BMFSEntry>, dir': seq<BMFSEntry>, outcome: Outcome, name: string, blocks: nat,
                         limit: nat)
    requires Safe(dir, limit) && ValidName(name) && blocks >= 1 && 1 <= limit < 0x8000_0000
    requires Creates(dir, dir', outcome, name, blocks, limit, false)
    ensures Safe(dir', limit) && KeepsLive(dir, dir') <==> WrittenCreateIsSafe(dir, name, blocks, limit)
  {
    if FindFile(dir, name, 0).None? && FirstFree(dir, 0).Some? {
      var slot, numUsed := FirstFree(dir, 0).value, NumUsed(dir, false);
      var s :| multiset(s) == multiset(dir[..numUsed]) && Sorted(s)
        && match Scan(s, 0, 1, limit, blocks, false)
           case None => dir' == dir && outcome == NoSpace
           case Some(p) =>
             dir' == Record(dir, slot, numUsed, BMFSEntry(name, p, blocks, 0)) && outcome == Created(p);
      if |Used(dir)| < |dir| {
        ScanOfDirectory(dir, s, limit, blocks);
        match Scan(s, 0, 1, limit, blocks, false)
        case None =>
        case Some(p) => RecordSafeIff(dir, slot, numUsed, BMFSEntry(name, p, blocks, 0), limit);
      } else {
        assert dir[..0] == [];
        assert |s| == |multiset(s)|;
        assert s == [];
        FullWrittenCreate(dir, dir', name, blocks, limit, slot);
      }
    }
  }

  /** On a full directory with a deleted record, the code as written always places the file at block 1. */
  lemma FullWrittenCreate(dir: seq<BMFSEntry>, dir': seq<BMFSEntry>, name: string, blocks: nat, limit: nat, slot: nat)
    requires Safe(dir, limit) && ValidName(name) && blocks >= 1 && 1 <= limit < 0x8000_0000
    requires |Used(dir)| == |dir| && FindFile(dir, name, 0).None? && FirstFree(dir, 0) == Some(slot)
    requires dir' == if 1 + blocks <= limit then Record(dir, slot, 0, BMFSEntry(name, 1, blocks, 0)) else dir
    ensures Safe(dir', limit) && KeepsLive(dir, dir') <==> WrittenCreateIsSafe(dir, name, blocks, limit)
  {
    if 1 + blocks <= limit {
      var e := BMFSEntry(name, 1, blocks, 0);
      if slot != 0 {
        RecordSafeIff(dir, slot, 0, e, limit);
        FirstFreeIsFirst(dir, 0);
      } else {
        EndOfIs(dir', 0, 1);
        if forall i | 0 <= i < |dir| :: IsDeleted(dir[i]) {
          assert Safe(dir', limit) && KeepsLive(dir, dir');
        } else {
          var i :| 0 <= i < |dir| && !IsDeleted(dir[i]);
          assert Live(dir, i) && !Live(dir', i);
        }
      }
    }
  }

  lemma {:induction false} FirstFreeIsFirst(dir: seq<BMFSEntry>, i: nat)
    requires i <= |dir| && FirstFree(dir, i).Some?
    ensures forall k | i <= k < FirstFree(dir, i).value :: !IsDeleted(dir[k])
    decreases |dir| - i
  {
    if !(IsEnd(dir[i]) || IsDeleted(dir[i])) { FirstFreeIsFirst(dir, i + 1); }
  }

  /** A deleted file of one block in front of a live one: the second file is placed on top of the first. */
  lemma StaleExtentExample(dir: seq<BMFSEntry>)
    requires dir == [BMFSEntry([DELETED], 1, 1, 0), BMFSEntry("b", 2, 2, 0)] + seq(62, _ => BMFSEntry("", 0, 0, 0))
    ensures Safe(dir, 5) && !WrittenCreateIsSafe(dir, "c", 2, 5)
  {
    EndOfIs(dir, 0, 2);
    assert Used(dir) == [dir[0], dir[1]];
    assert FindFile(dir, "c", 0).None?;
    assert IsDeleted(Used(dir)[0]) && ExtentEnd(Used(dir)[0]) + 2 <= 5;
    var live := Used(dir)[1];
    assert forall p: nat | Fits(Used(dir), 5, 2, p) :: p + 2 <= live.startingBlock || ExtentEnd(live) <= p;
  }

  // ---------- delete, format and write ----------

  /** delete overwrites the first byte of the name. */
  function Deleted(e: BMFSEntry): BMFSEntry
    requires e.fileName != ""
  {
    e.(fileName := [DELETED] + e.fileName[1..])
  }

  lemma ReplacedUsed(dir: seq<BMFSEntry>, slot: nat, e: BMFSEntry)
    requires slot < EndOf(dir, 0) && !IsEnd(e)
    ensures Used(dir[slot := e]) == Used(dir)[slot := e]
  {
    EndOfIs(dir[slot := e], 0, EndOf(dir, 0));
  }

  /** delete removes that file, keeps every other, and stays safe. */
  lemma DeleteIsSafe(dir: seq<BMFSEntry>, name: string, limit: int)
    requires Safe(dir, limit) && FindFile(dir, name, 0).Some?
    ensures var slot := FindFile(dir, name, 0).value;
      var dir' := dir[slot := Deleted(dir[slot])];
      && Safe(dir', limit) && FindFile(dir', name, 0).None?
      && forall i: nat | Live(dir, i) && i != slot :: Live(dir', i) && dir'[i] == dir[i]
  {
    var slot := FindFile(dir, name, 0).value;
    var used, dir' := Used(dir), dir[slot := Deleted(dir[slot])];
    ReplacedUsed(dir, slot, Deleted(dir[slot]));
    forall k | 0 <= k < EndOf(dir', 0) && !IsDeleted(dir'[k]) ensures dir'[k].fileName != name {
      assert k != slot && used[k] == dir[k] && used[slot] == dir[slot];
      if k < slot { assert used[k].fileName != used[slot].fileName; }
    }
  }

  /** write changes only the size of its own record. */
  lemma WriteIsSafe(dir: seq<BMFSEntry>, name: string, size: nat, limit: int)
    requires Safe(dir, limit) && FindFile(dir, name, 0).Some?
    ensures var slot := FindFile(dir, name, 0).value;
      var dir' := dir[slot := dir[slot].(fileSize := size)];
      Safe(dir', limit) && forall i: nat :: Live(dir', i) <==> Live(dir, i)
  {
    var slot := FindFile(dir, name, 0).value;
    ReplacedUsed(dir, slot, dir[slot].(fileSize := size));
  }

  // ---------- Runs ----------

  datatype Op =
    | FormatOp
    | CreateOp(name: string, blocks: nat)
    | WriteOp(name: string, size: nat)
    | DeleteOp(name: string)

  /** One command of the repaired tool, on the directory. */
  ghost predicate Step(dir: seq<BMFSEntry>, dir': seq<BMFSEntry>, op: Op, limit: nat) {
    match op
    case FormatOp => |dir'| == RECORDS && forall i | 0 <= i < RECORDS :: IsEnd(dir'[i])
    case CreateOp(name, blocks) =>
      if ValidName(name) && blocks >= 1
      then exists outcome :: Creates(dir, dir', outcome, name, blocks, limit, true)
      else dir' == dir
    case WriteOp(name, size) =>
      (match FindFile(dir, name, 0)
       case None => dir' == dir
       case Some(slot) => dir' == dir[slot := dir[slot].(fileSize := size)])
    case DeleteOp(name) =>
      match FindFile(dir, name, 0)
      case None => dir' == dir
      case Some(slot) => dir' == dir[slot := Deleted(dir[slot])]
  }

  lemma StepIsSafe(dir: seq<BMFSEntry>, dir': seq<BMFSEntry>, op: Op, limit: nat)
    requires Safe(dir, limit) && 1 <= limit < 0x8000_0000 && Step(dir, dir', op, limit)
    ensures Safe(dir', limit)
  {
    match op
    case FormatOp => assert EndOf(dir', 0) == 0;
    case CreateOp(name, blocks) =>
      if ValidName(name) && blocks >= 1 {
        var outcome :| Creates(dir, dir', outcome, name, blocks, limit, true);
        RepairedCreate(dir, dir', outcome, name, blocks, limit);
      }
    case WriteOp(name, size) => if FindFile(dir, name, 0).Some? { WriteIsSafe(dir, name, size, limit); }
    case DeleteOp(name) => if FindFile(dir, name, 0).Some? { DeleteIsSafe(dir, name, limit); }
  }

  /** Over every run of commands from a formatted disk, live files keep distinct names and disjoint extents. */
  lemma {:induction false} EveryRunIsSafe(dirs: seq<seq<BMFSEntry>>, ops: seq<Op>, limit: nat, k: nat)
    requires 1 <= limit < 0x8000_0000 && |dirs| == |ops| + 1 && k < |dirs|
    requires |dirs[0]| == RECORDS && IsEnd(dirs[0][0])
    requires forall i | 0 <= i < |ops| :: Step(dirs[i], dirs[i + 1], ops[i], limit)
    ensures Safe(dirs[k], limit)
  {
    if k == 0 {
      assert EndOf(dirs[0], 0) == 0;
    } else {
      EveryRunIsSafe(dirs, ops, limit, k - 1);
      StepIsSafe(dirs[k - 1], dirs[k - 1 + 1], ops[k - 1], limit);
    }
  }
}
