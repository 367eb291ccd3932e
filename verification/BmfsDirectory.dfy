/**
  The directory of the BareMetal File System (Bootloader/BMFS/bmfs.c): 64 records, each naming a file
  and the contiguous blocks reserved for it.  A record whose name is empty ends the directory; one
  whose name starts with byte 1 is deleted and keeps its stale extent.
 */
module BmfsDirectory {
  import opened Options

  const RECORDS: nat := 64
  const BLOCK_BYTES: nat := 2097152
  const DELETED: char := 1 as char

  datatype BMFSEntry = BMFSEntry(fileName: string, startingBlock: nat, reservedBlocks: nat, fileSize: nat)

  predicate IsEnd(e: BMFSEntry) { e.fileName == "" }

  predicate IsDeleted(e: BMFSEntry) { e.fileName != "" && e.fileName[0] == DELETED }

  function ExtentEnd(e: BMFSEntry): nat { e.startingBlock + e.reservedBlocks }

  predicate Disjoint(a: BMFSEntry, b: BMFSEntry) {
    ExtentEnd(a) <= b.startingBlock || ExtentEnd(b) <= a.startingBlock
  }

  /** A name create is given: 1 to 31 characters, none of them NUL, the first not the deletion mark. */
  predicate ValidName(name: string) { 1 <= |name| <= 31 && name[0] != DELETED && '\0' !in name }

  /** The number of records before the end mark. */
  function EndOf(dir: seq<BMFSEntry>, i: nat): (end: nat)
    requires i <= |dir|
    ensures i <= end <= |dir| && (end < |dir| ==> IsEnd(dir[end]))
    ensures forall k | i <= k < end :: !IsEnd(dir[k])
    decreases |dir| - i
  {
    if i == |dir| || IsEnd(dir[i]) then i else EndOf(dir, i + 1)
  }

  /** The used records, deleted ones among them. */
  function Used(dir: seq<BMFSEntry>): seq<BMFSEntry> { dir[..EndOf(dir, 0)] }

  ghost predicate Live(dir: seq<BMFSEntry>, i: nat) {
    i < EndOf(dir, 0) && !IsDeleted(dir[i])
  }

  /** Extents of used records lie in the data blocks [1, limit); limit is the last block of the disk. */
  ghost predicate InRange(s: seq<BMFSEntry>, limit: int) {
    forall i | 0 <= i < |s| :: 1 <= s[i].startingBlock && 1 <= s[i].reservedBlocks && ExtentEnd(s[i]) <= limit
  }

  /** Live records of a sequence have distinct names and disjoint extents. */
  ghost predicate Apart(s: seq<BMFSEntry>) {
    forall i, j | 0 <= i < j < |s| && !IsDeleted(s[i]) && !IsDeleted(s[j]) ::
      s[i].fileName != s[j].fileName && Disjoint(s[i], s[j])
  }

  ghost predicate Safe(dir: seq<BMFSEntry>, limit: int) {
    |dir| == RECORDS && InRange(Used(dir), limit) && Apart(Used(dir))
  }

  // ---------- Gaps ----------

  /** The blocks [start, start + blocks) are data blocks and no live record of s holds any of them. */
  ghost predicate Fits(s: seq<BMFSEntry>, limit: int, blocks: nat, start: nat) {
    && 1 <= start && start + blocks <= limit
    && forall k | 0 <= k < |s| && !IsDeleted(s[k]) ::
         start + blocks <= s[k].startingBlock || ExtentEnd(s[k]) <= start
  }

  /** The lowest place for that many blocks at or after start: what create is meant to find. */
  ghost function LowestFit(s: seq<BMFSEntry>, limit: int, blocks: nat, start: nat): (r: Option<nat>)
    requires start >= 1
    ensures r.Some? ==> Fits(s, limit, blocks, r.value) && start <= r.value
    ensures forall p: nat | start <= p && Fits(s, limit, blocks, p) :: r.Some? && r.value <= p
    decreases limit - start
  {
    if start + blocks > limit then None
    else if Fits(s, limit, blocks, start) then Some(start)
    else LowestFit(s, limit, blocks, start + 1)
  }

  // ---------- Sorting ----------

  /** StartingBlockCmp: deleted records go to the end, the others by starting block. */
  function StartingBlockCmp(a: BMFSEntry, b: BMFSEntry): int {
    if IsDeleted(a) then 1
    else if IsDeleted(b) then -1
    else a.startingBlock - b.startingBlock
  }

  predicate Ordered(a: BMFSEntry, b: BMFSEntry) {
    IsDeleted(b) || (!IsDeleted(a) && a.startingBlock <= b.startingBlock)
  }

  ghost predicate Sorted(s: seq<BMFSEntry>) {
    forall i, j | 0 <= i < j < |s| :: Ordered(s[i], s[j])
  }

  /** qsort with StartingBlockCmp: whatever the algorithm, a permutation in that order. */
  method Qsort(s: seq<BMFSEntry>) returns (r: seq<BMFSEntry>)
    ensures multiset(r) == multiset(s) && Sorted(r)
  {
    r := [];
    for i := 0 to |s|
      invariant multiset(r) == multiset(s[..i]) && Sorted(r)
    {
      var j := 0;
      while j < |r| && StartingBlockCmp(s[i], r[j]) > 0
        invariant 0 <= j <= |r|
        invariant forall k | 0 <= k < j :: Ordered(r[k], s[i])
      {
        j := j + 1;
      }
      assert s[..i + 1] == s[..i] + [s[i]];
      InsertKeepsSorted(r, j, s[i]);
      assert r == r[..j] + r[j..];
      r := r[..j] + [s[i]] + r[j..];
    }
    assert s[..|s|] == s;
  }

  lemma InsertKeepsSorted(r: seq<BMFSEntry>, j: nat, e: BMFSEntry)
    requires j <= |r| && Sorted(r)
    requires forall k | 0 <= k < j :: Ordered(r[k], e)
    requires j < |r| ==> StartingBlockCmp(e, r[j]) <= 0
    ensures Sorted(r[..j] + [e] + r[j..])
  {
    var r' := r[..j] + [e] + r[j..];
    assert forall k | 0 <= k < j :: r'[k] == r[k];
    assert forall k | j < k < |r'| :: r'[k] == r[k - 1];
    forall k | j <= k < |r| ensures Ordered(e, r[k]) {
      assert k > j ==> Ordered(r[j], r[k]);
    }
    forall a, b | 0 <= a < b < |r'| ensures Ordered(r'[a], r'[b]) {
      if b < j {
        assert r'[a] == r[a] && r'[b] == r[b];
      } else if a > j {
        assert r'[a] == r[a - 1] && r'[b] == r[b - 1];
      } else if a < j && j < b {
        assert Ordered(r[a], r[b - 1]);
      }
    }
  }

  // ---------- What a permutation keeps ----------

  lemma CountTwice<T>(s: seq<T>, i: nat, j: nat)
    requires i < j < |s| && s[i] == s[j]
    ensures multiset(s)[s[i]] >= 2
  {
    assert s == s[..j] + [s[j]] + s[j + 1..];
    assert s[i] in s[..j];
  }

  lemma TwiceAt<T>(s: seq<T>, x: T) returns (i: nat, j: nat)
    requires multiset(s)[x] >= 2
    ensures i < j < |s| && s[i] == s[j] == x
  {
    i :| 0 <= i < |s| && s[i] == x;
    assert s == s[..i] + [x] + s[i + 1..];
    if x in s[..i] {
      j := i;
      i :| 0 <= i < j && s[i] == x;
    } else {
      assert x in s[i + 1..];
      j :| i < j < |s| && s[j] == x;
    }
  }

  lemma PermutationKeepsElements(s: seq<BMFSEntry>, r: seq<BMFSEntry>)
    requires multiset(s) == multiset(r)
    ensures forall e :: e in s <==> e in r
  {
    forall e ensures e in s <==> e in r {
      assert e in s <==> e in multiset(s);
      assert e in r <==> e in multiset(r);
    }
  }

  lemma PermutationKeepsApart(s: seq<BMFSEntry>, r: seq<BMFSEntry>)
    requires multiset(s) == multiset(r) && Apart(s)
    ensures Apart(r)
  {
    PermutationKeepsElements(s, r);
    forall i, j | 0 <= i < j < |r| && !IsDeleted(r[i]) && !IsDeleted(r[j])
      ensures r[i].fileName != r[j].fileName && Disjoint(r[i], r[j])
    {
      if r[i] == r[j] {
        CountTwice(r, i, j);
        var i', j' := TwiceAt(s, r[i]);
      } else {
        assert r[i] in s && r[j] in s;
        var i' :| 0 <= i' < |s| && s[i'] == r[i];
        var j' :| 0 <= j' < |s| && s[j'] == r[j];
        assert i' != j';
      }
    }
  }

  lemma PermutationKeepsFits(s: seq<BMFSEntry>, r: seq<BMFSEntry>, limit: int, blocks: nat, start: nat)
    requires multiset(s) == multiset(r)
    ensures Fits(s, limit, blocks, start) <==> Fits(r, limit, blocks, start)
  {
    PermutationKeepsElements(s, r);
    if Fits(s, limit, blocks, start) {
      forall k | 0 <= k < |r| && !IsDeleted(r[k])
        ensures start + blocks <= r[k].startingBlock || ExtentEnd(r[k]) <= start
      {
        assert r[k] in s;
      }
    }
    if Fits(r, limit, blocks, start) {
      forall k | 0 <= k < |s| && !IsDeleted(s[k])
        ensures start + blocks <= s[k].startingBlock || ExtentEnd(s[k]) <= start
      {
        assert s[k] in r;
      }
    }
  }

  // ---------- The scan ----------

  /** C subtraction on unsigned 64-bit integers. */
  function Sub64(a: int, b: int): int { (a - b) % 0x1_0000_0000_0000_0000 }

  /**
    The loop of create over the sorted copy: the first record, or the end, that leaves enough blocks
    free after the previous one.  As written (repaired false) a deleted record moves the end of the
    previous file to its stale extent; repaired, only live records do.
   */
  function Scan(s: seq<BMFSEntry>, i: nat, prevEnd: nat, limit: nat, blocks: nat, repaired: bool): Option<nat>
    requires i <= |s|
    decreases |s| - i
  {
    var thisStart := if i == |s| || IsDeleted(s[i]) then limit else s[i].startingBlock;
    if Sub64(thisStart, prevEnd) >= blocks then Some(prevEnd)
    else if i == |s| then None
    else Scan(s, i + 1, if repaired && IsDeleted(s[i]) then prevEnd else ExtentEnd(s[i]), limit, blocks, repaired)
  }

  /** Before record i: live records end by prevEnd, later ones start there or after, nothing lower fits. */
  ghost predicate ScanInvariant(s: seq<BMFSEntry>, i: nat, prevEnd: nat, limit: nat, blocks: nat) {
    && i <= |s| && 1 <= prevEnd <= limit < 0x8000_0000 && blocks >= 1
    && Sorted(s) && InRange(s, limit) && Apart(s)
    && (forall k | 0 <= k < i && !IsDeleted(s[k]) :: ExtentEnd(s[k]) <= prevEnd)
    && (forall k | i <= k < |s| && !IsDeleted(s[k]) :: prevEnd <= s[k].startingBlock)
    && (forall p: nat | Fits(s, limit, blocks, p) :: prevEnd <= p)
  }

  lemma ScanInvariantStep(s: seq<BMFSEntry>, i: nat, prevEnd: nat, limit: nat, blocks: nat)
    requires ScanInvariant(s, i, prevEnd, limit, blocks) && i < |s|
    requires !IsDeleted(s[i]) && s[i].startingBlock - prevEnd < blocks
    ensures ScanInvariant(s, i + 1, ExtentEnd(s[i]), limit, blocks)
  {
    forall k | i < k < |s| && !IsDeleted(s[k]) ensures ExtentEnd(s[i]) <= s[k].startingBlock {
      assert Ordered(s[i], s[k]);
    }
  }

  /** Deleted records come last. */
  lemma DeletedToTheEnd(s: seq<BMFSEntry>, i: nat)
    requires Sorted(s) && i <= |s| && (i < |s| ==> IsDeleted(s[i]))
    ensures forall k | i <= k < |s| :: IsDeleted(s[k])
  {
    forall k | i <= k < |s| ensures IsDeleted(s[k]) {
      assert k > i ==> Ordered(s[i], s[k]);
    }
  }

  /** Some deleted record's stale extent leaves enough blocks before the limit. */
  ghost predicate StaleRoom(s: seq<BMFSEntry>, limit: int, blocks: nat) {
    exists k :: 0 <= k < |s| && IsDeleted(s[k]) && ExtentEnd(s[k]) + blocks <= limit
  }

  lemma {:induction false} ScanOfDeleted(s: seq<BMFSEntry>, i: nat, prevEnd: nat, limit: nat, blocks: nat)
    requires i <= |s| && 1 <= prevEnd <= limit < 0x8000_0000 && InRange(s, limit)
    requires forall k | i <= k < |s| :: IsDeleted(s[k])
    ensures Scan(s, i, prevEnd, limit, blocks, true) == if limit - prevEnd >= blocks then Some(prevEnd) else None
    ensures Scan(s, i, prevEnd, limit, blocks, false).Some? <==>
      limit - prevEnd >= blocks || exists k :: i <= k < |s| && ExtentEnd(s[k]) + blocks <= limit
    ensures var r := Scan(s, i, prevEnd, limit, blocks, false);
      r.Some? ==> 1 <= r.value && r.value + blocks <= limit
    decreases |s| - i
  {
    if i < |s| && limit - prevEnd < blocks {
      ScanOfDeleted(s, i + 1, prevEnd, limit, blocks);
      ScanOfDeleted(s, i + 1, ExtentEnd(s[i]), limit, blocks);
    }
  }

  /** r is the lowest place where the file fits, or it fits nowhere. */
  ghost predicate IsLowestFit(s: seq<BMFSEntry>, limit: int, blocks: nat, r: Option<nat>) {
    && (r.Some? ==> Fits(s, limit, blocks, r.value))
    && forall p: nat | Fits(s, limit, blocks, p) :: r.Some? && r.value <= p
  }

  /** Enough room before the next file. */
  lemma FitsBeforeRecord(s: seq<BMFSEntry>, i: nat, prevEnd: nat, limit: nat, blocks: nat)
    requires ScanInvariant(s, i, prevEnd, limit, blocks) && i < |s|
    requires !IsDeleted(s[i]) && s[i].startingBlock - prevEnd >= blocks
    ensures IsLowestFit(s, limit, blocks, Some(prevEnd))
  {
    forall k | i < k < |s| && !IsDeleted(s[k]) ensures prevEnd + blocks <= s[k].startingBlock {
      assert Ordered(s[i], s[k]);
    }
  }

  /** No file is left: what remains is the room up to the limit. */
  lemma FitsBehindTheLast(s: seq<BMFSEntry>, i: nat, prevEnd: nat, limit: nat, blocks: nat)
    requires ScanInvariant(s, i, prevEnd, limit, blocks)
    requires forall k | i <= k < |s| :: IsDeleted(s[k])
    ensures IsLowestFit(s, limit, blocks, if limit - prevEnd >= blocks then Some(prevEnd) else None)
  {
  }

  /** The repaired scan finds the lowest place where the file fits, or there is none. */
  lemma {:induction false} RepairedScanIsLowestFit(s: seq<BMFSEntry>, i: nat, prevEnd: nat, limit: nat, blocks: nat)
    requires ScanInvariant(s, i, prevEnd, limit, blocks)
    ensures IsLowestFit(s, limit, blocks, Scan(s, i, prevEnd, limit, blocks, true))
    decreases |s| - i
  {
    if i == |s| || IsDeleted(s[i]) {
      DeletedToTheEnd(s, i);
      ScanOfDeleted(s, i, prevEnd, limit, blocks);
      FitsBehindTheLast(s, i, prevEnd, limit, blocks);
    } else if s[i].startingBlock - prevEnd < blocks {
      ScanInvariantStep(s, i, prevEnd, limit, blocks);
      RepairedScanIsLowestFit(s, i + 1, ExtentEnd(s[i]), limit, blocks);
    } else {
      FitsBeforeRecord(s, i, prevEnd, limit, blocks);
    }
  }

  /**
    The scan as written agrees with the repaired one where the file fits; where it fits nowhere, the
    scan as written still answers exactly when some stale extent leaves room behind it.
   */
  lemma {:induction false} WrittenScanAnswers(s: seq<BMFSEntry>, i: nat, prevEnd: nat, limit: nat, blocks: nat)
    requires ScanInvariant(s, i, prevEnd, limit, blocks)
    requires forall k | 0 <= k < i :: !IsDeleted(s[k])
    ensures var written, repaired :=
        Scan(s, i, prevEnd, limit, blocks, false), Scan(s, i, prevEnd, limit, blocks, true);
      && (repaired.Some? ==> written == repaired)
      && (repaired.None? ==> (written.Some? <==> StaleRoom(s, limit, blocks)))
      && (written.Some? ==> 1 <= written.value && written.value + blocks <= limit)
    decreases |s| - i
  {
    if i < |s| && !IsDeleted(s[i]) {
      if s[i].startingBlock - prevEnd < blocks {
        ScanInvariantStep(s, i, prevEnd, limit, blocks);
        WrittenScanAnswers(s, i + 1, ExtentEnd(s[i]), limit, blocks);
      }
    } else {
      DeletedToTheEnd(s, i);
      ScanOfDeleted(s, i, prevEnd, limit, blocks);
    }
  }

  /** On no iteration does the unsigned subtraction of the scan go below zero. */
  ghost predicate NeverUnderflows(s: seq<BMFSEntry>, i: nat, prevEnd: nat, limit: nat, blocks: nat, repaired: bool)
    requires i <= |s|
    decreases |s| - i
  {
    var thisStart := if i == |s| || IsDeleted(s[i]) then limit else s[i].startingBlock;
    && prevEnd <= thisStart
    && (thisStart - prevEnd < blocks && i < |s| ==>
        NeverUnderflows(s, i + 1, if repaired && IsDeleted(s[i]) then prevEnd else ExtentEnd(s[i]), limit, blocks,
                        repaired))
  }

  lemma {:induction false} DeletedNeverUnderflow(s: seq<BMFSEntry>, i: nat, prevEnd: nat, limit: nat, blocks: nat,
                                                 repaired: bool)
    requires i <= |s| && prevEnd <= limit && InRange(s, limit)
    requires forall k | i <= k < |s| :: IsDeleted(s[k])
    ensures NeverUnderflows(s, i, prevEnd, limit, blocks, repaired)
    decreases |s| - i
  {
    if i < |s| {
      DeletedNeverUnderflow(s, i + 1, if repaired then prevEnd else ExtentEnd(s[i]), limit, blocks, repaired);
    }
  }

  lemma {:induction false} ScanNeverUnderflows(s: seq<BMFSEntry>, i: nat, prevEnd: nat, limit: nat, blocks: nat,
                                               repaired: bool)
    requires ScanInvariant(s, i, prevEnd, limit, blocks)
    ensures NeverUnderflows(s, i, prevEnd, limit, blocks, repaired)
    decreases |s| - i
  {
    if i < |s| && !IsDeleted(s[i]) {
      if s[i].startingBlock - prevEnd < blocks {
        ScanInvariantStep(s, i, prevEnd, limit, blocks);
        ScanNeverUnderflows(s, i + 1, ExtentEnd(s[i]), limit, blocks, repaired);
      }
    } else {
      DeletedToTheEnd(s, i);
      DeletedNeverUnderflow(s, i, prevEnd, limit, blocks, repaired);
    }
  }

  /**
    From the first record, over the sorted copy of a safe directory: the repaired scan is the lowest
    fit, the scan as written differs only when nothing fits, and neither ever underflows.
   */
  lemma ScanOfDirectory(dir: seq<BMFSEntry>, s: seq<BMFSEntry>, limit: nat, blocks: nat)
    requires Safe(dir, limit) && multiset(s) == multiset(Used(dir)) && Sorted(s)
    requires blocks >= 1 && 1 <= limit < 0x8000_0000
    ensures Scan(s, 0, 1, limit, blocks, true) == LowestFit(Used(dir), limit, blocks, 1)
    ensures Scan(s, 0, 1, limit, blocks, true).Some? ==>
      Scan(s, 0, 1, limit, blocks, false) == Scan(s, 0, 1, limit, blocks, true)
    ensures Scan(s, 0, 1, limit, blocks, true).None? ==>
      (Scan(s, 0, 1, limit, blocks, false).Some? <==> StaleRoom(Used(dir), limit, blocks))
    ensures var written := Scan(s, 0, 1, limit, blocks, false);
      written.Some? ==> 1 <= written.value && written.value + blocks <= limit
    ensures NeverUnderflows(s, 0, 1, limit, blocks, true) && NeverUnderflows(s, 0, 1, limit, blocks, false)
  {
    var used := Used(dir);
    PermutationKeepsElements(used, s);
    PermutationKeepsApart(used, s);
    forall k | 0 <= k < |s| ensures 1 <= s[k].startingBlock && 1 <= s[k].reservedBlocks && ExtentEnd(s[k]) <= limit {
      assert s[k] in used;
    }
    assert ScanInvariant(s, 0, 1, limit, blocks);
    RepairedScanIsLowestFit(s, 0, 1, limit, blocks);
    WrittenScanAnswers(s, 0, 1, limit, blocks);
    ScanNeverUnderflows(s, 0, 1, limit, blocks, true);
    ScanNeverUnderflows(s, 0, 1, limit, blocks, false);
    forall p: nat ensures Fits(used, limit, blocks, p) <==> Fits(s, limit, blocks, p) {
      PermutationKeepsFits(used, s, limit, blocks, p);
    }
    assert StaleRoom(used, limit, blocks) <==> StaleRoom(s, limit, blocks) by {
      if StaleRoom(used, limit, blocks) {
        var k :| 0 <= k < |used| && IsDeleted(used[k]) && ExtentEnd(used[k]) + blocks <= limit;
        assert used[k] in s;
      }
      if StaleRoom(s, limit, blocks) {
        var k :| 0 <= k < |s| && IsDeleted(s[k]) && ExtentEnd(s[k]) + blocks <= limit;
        assert s[k] in used;
      }
    }
  }
}
