/**
  The free-list allocator of Kernel/memoryManagement/freeListMemoryManager.c, seen as the list of
  blocks that its `next` pointers thread through the arena.  Each block has a 32-byte header.
 */
module FreeListBlocks {
  import opened Options

  const HEADER: nat := 32

  datatype Block = Block(addr: int, size: nat, free: bool)

  function End(b: Block): int { b.addr + HEADER + b.size }

  /** Where the block after block i starts: the end of the arena for the last one. */
  function NextAddr(bs: seq<Block>, i: nat, hi: int): int
    requires i < |bs|
  {
    if i + 1 < |bs| then bs[i + 1].addr else hi
  }

  /** The blocks cover [lo, hi) in order, with no gap and no overlap. */
  ghost predicate Tiled(bs: seq<Block>, lo: int, hi: int) {
    && |bs| > 0 && bs[0].addr == lo
    && forall i | 0 <= i < |bs| :: End(bs[i]) == NextAddr(bs, i, hi)
  }

  lemma {:induction false} TiledOrdered(bs: seq<Block>, lo: int, hi: int, i: nat, j: nat)
    requires Tiled(bs, lo, hi) && i < j < |bs|
    ensures End(bs[i]) <= bs[j].addr
    decreases j
  {
    if i + 1 < j { TiledOrdered(bs, lo, hi, i, j - 1); }
  }

  lemma TiledInside(bs: seq<Block>, lo: int, hi: int, i: nat)
    requires Tiled(bs, lo, hi) && i < |bs|
    ensures lo <= bs[i].addr && End(bs[i]) <= hi
  {
    if 0 < i { TiledOrdered(bs, lo, hi, 0, i); }
    if i + 1 < |bs| { TiledOrdered(bs, lo, hi, i, |bs| - 1); }
    assert End(bs[|bs| - 1]) == hi;
  }

  /** The memSize of all allocated blocks. */
  function UsedSize(bs: seq<Block>): (n: nat) {
    if bs == [] then 0
    else (if bs[0].free then 0 else bs[0].size) + UsedSize(bs[1..])
  }

  lemma {:induction false} UsedSizeConcat(a: seq<Block>, b: seq<Block>)
    ensures UsedSize(a + b) == UsedSize(a) + UsedSize(b)
  {
    if a == [] {
      assert a + b == b;
    } else {
      assert (a + b)[1..] == a[1..] + b;
      UsedSizeConcat(a[1..], b);
    }
  }

  /** bs with n blocks from index i replaced by parts. */
  function Splice(bs: seq<Block>, i: nat, n: nat, parts: seq<Block>): (r: seq<Block>)
    requires i + n <= |bs|
    ensures |r| == |bs| - n + |parts|
    ensures forall k | 0 <= k < i :: r[k] == bs[k]
    ensures forall k | 0 <= k < |parts| :: r[i + k] == parts[k]
    ensures forall k | i + |parts| <= k < |r| :: r[k] == bs[k - |parts| + n]
  {
    bs[..i] + parts + bs[i + n..]
  }

  lemma SpliceUsedSize(bs: seq<Block>, i: nat, n: nat, parts: seq<Block>)
    requires i + n <= |bs|
    ensures UsedSize(Splice(bs, i, n, parts)) == UsedSize(bs) - UsedSize(bs[i..i + n]) + UsedSize(parts)
  {
    var before, middle, after := bs[..i], bs[i..i + n], bs[i + n..];
    assert bs == before + middle + after;
    UsedSizeConcat(before + middle, after);
    UsedSizeConcat(before, middle);
    UsedSizeConcat(before + parts, after);
    UsedSizeConcat(before, parts);
  }

  /** Replacing blocks by others that cover the same span keeps the tiling. */
  lemma SpliceTiled(bs: seq<Block>, i: nat, n: nat, parts: seq<Block>, lo: int, hi: int)
    requires Tiled(bs, lo, hi) && n > 0 && i + n <= |bs|
    requires Tiled(parts, bs[i].addr, End(bs[i + n - 1]))
    ensures Tiled(Splice(bs, i, n, parts), lo, hi)
  {
    var r := Splice(bs, i, n, parts);
    forall k | 0 <= k < |r|
      ensures End(r[k]) == NextAddr(r, k, hi)
    {
      if k + 1 < i {
        assert r[k] == bs[k] && r[k + 1] == bs[k + 1];
      } else if k + 1 == i {
        assert r[k] == bs[k] && r[i + 0] == parts[0];
      } else if k < i + |parts| {
        assert r[i + (k - i)] == parts[k - i];
        if k + 1 < i + |parts| {
          assert r[i + (k + 1 - i)] == parts[k + 1 - i];
        } else {
          assert k + 1 < |r| ==> r[k + 1] == bs[i + n];
        }
      } else {
        assert r[k] == bs[k - |parts| + n];
        assert k + 1 < |r| ==> r[k + 1] == bs[k + 1 - |parts| + n];
      }
    }
    assert r[0].addr == lo by {
      if i == 0 { assert r[i + 0] == parts[0]; } else { assert r[0] == bs[0]; }
    }
  }

  ghost predicate NoAdjacentFree(bs: seq<Block>) {
    forall i | 0 < i < |bs| :: !(bs[i - 1].free && bs[i].free)
  }

  // ---------- genericAllocMemory ----------

  /** Bytes taken for a request, header included; `%` binds tighter than `+` in the first test. */
  function BytesToTake(blockSize: nat, request: nat): (n: nat)
    requires blockSize > 0
  {
    if request + HEADER % blockSize == 0 then HEADER + request
    else (HEADER + request) / blockSize * blockSize + blockSize
  }

  /** Whatever the precedence slip, room for the header and the request is always taken. */
  lemma TakesEnough(blockSize: nat, request: nat)
    requires blockSize > 0
    ensures HEADER + request <= BytesToTake(blockSize, request) <= HEADER + request + blockSize
  {
    var q := (HEADER + request) / blockSize;
    assert HEADER + request == q * blockSize + (HEADER + request) % blockSize;
  }

  /** The bytes taken are header and request, or the next multiple m of the block size above them. */
  lemma TakesWholeBlocks(blockSize: nat, request: nat) returns (m: nat)
    requires blockSize > 0
    ensures var n := BytesToTake(blockSize, request);
      if request + 32 % blockSize == 0 then n == 32 + request
      else n == m * blockSize && 32 + request < n <= 32 + request + blockSize
  {
    var q := (32 + request) / blockSize;
    assert 32 + request == q * blockSize + (32 + request) % blockSize;
    m := q + 1;
  }

  predicate Fits(b: Block, need: nat) { b.free && b.size >= need }

  /** The first fitting block from index i on. */
  function FirstFit(bs: seq<Block>, need: nat, i: nat): (r: Option<nat>)
    requires i <= |bs|
    ensures r.Some? ==> i <= r.value < |bs| && Fits(bs[r.value], need)
    ensures forall k | i <= k < (if r.Some? then r.value else |bs|) :: !Fits(bs[k], need)
    decreases |bs| - i
  {
    if i == |bs| then None
    else if Fits(bs[i], need) then Some(i)
    else FirstFit(bs, need, i + 1)
  }

  /** What becomes of block b when it is taken for the need: what it has beyond is a free block after it. */
  function Taken(b: Block, need: nat): seq<Block>
    requires Fits(b, need) && need >= HEADER
  {
    if b.size > need then [Block(b.addr, need - HEADER, false), Block(b.addr + need, b.size - need, true)]
    else [Block(b.addr, b.size, false)]
  }

  function AllocAt(bs: seq<Block>, i: nat, need: nat): (r: seq<Block>)
    requires i < |bs| && Fits(bs[i], need) && need >= HEADER
  {
    Splice(bs, i, 1, Taken(bs[i], need))
  }

  lemma TakenCoversTheBlock(b: Block, need: nat)
    requires Fits(b, need) && need >= HEADER
    ensures Tiled(Taken(b, need), b.addr, End(b))
    ensures UsedSize(Taken(b, need)) == Taken(b, need)[0].size
  {
    var parts := Taken(b, need);
    if b.size > need {
      assert parts == [parts[0]] + [parts[1]];
      UsedSizeConcat([parts[0]], [parts[1]]);
    }
  }

  lemma AllocAtKeepsTiling(bs: seq<Block>, i: nat, need: nat, lo: int, hi: int)
    requires i < |bs| && Fits(bs[i], need) && need >= HEADER && Tiled(bs, lo, hi)
    ensures Tiled(AllocAt(bs, i, need), lo, hi)
    ensures UsedSize(AllocAt(bs, i, need)) == UsedSize(bs) + AllocAt(bs, i, need)[i].size
  {
    var parts := Taken(bs[i], need);
    TakenCoversTheBlock(bs[i], need);
    SpliceTiled(bs, i, 1, parts, lo, hi);
    SpliceUsedSize(bs, i, 1, parts);
    assert bs[i..i + 1] == [bs[i]];
    assert AllocAt(bs, i, need)[i + 0] == parts[0];
  }

  lemma AllocAtKeepsNoAdjacentFree(bs: seq<Block>, i: nat, need: nat)
    requires i < |bs| && Fits(bs[i], need) && need >= HEADER && NoAdjacentFree(bs)
    ensures NoAdjacentFree(AllocAt(bs, i, need))
  {
    var r, parts := AllocAt(bs, i, need), Taken(bs[i], need);
    assert r[i + 0] == parts[0];
    assert |parts| == 2 ==> r[i + 1] == parts[1];
    assert i + 1 < |bs| ==> !bs[i + 1].free;
  }

  // ---------- genericFreeMemory ----------

  function SetFree(bs: seq<Block>, i: nat): seq<Block>
    requires i < |bs|
  {
    Splice(bs, i, 1, [bs[i].(free := true)])
  }

  /** Block i absorbs the block after it, if that one is free. */
  function MergeNext(bs: seq<Block>, i: nat): seq<Block>
    requires i < |bs|
  {
    if i + 1 < |bs| && bs[i + 1].free then
      Splice(bs, i, 2, [bs[i].(size := bs[i].size + bs[i + 1].size + HEADER)])
    else bs
  }

  /** Free block i, merge it with its successor, then with its predecessor if mergePrev. */
  function FreeAt(bs: seq<Block>, i: nat, mergePrev: bool): seq<Block>
    requires i < |bs|
  {
    var merged := MergeNext(SetFree(bs, i), i);
    if mergePrev && i > 0 && bs[i - 1].free then MergeNext(merged, i - 1) else merged
  }

  lemma MergeNextKeepsTiling(bs: seq<Block>, i: nat, lo: int, hi: int)
    requires i < |bs| && Tiled(bs, lo, hi) && bs[i].free
    ensures Tiled(MergeNext(bs, i), lo, hi)
    ensures UsedSize(MergeNext(bs, i)) == UsedSize(bs)
  {
    if i + 1 < |bs| && bs[i + 1].free {
      var parts := [bs[i].(size := bs[i].size + bs[i + 1].size + HEADER)];
      SpliceTiled(bs, i, 2, parts, lo, hi);
      SpliceUsedSize(bs, i, 2, parts);
      assert bs[i..i + 2][1..] == [bs[i + 1]];
    }
  }

  lemma SetFreeKeepsTiling(bs: seq<Block>, i: nat, lo: int, hi: int)
    requires i < |bs| && Tiled(bs, lo, hi) && !bs[i].free
    ensures Tiled(SetFree(bs, i), lo, hi)
    ensures UsedSize(SetFree(bs, i)) == UsedSize(bs) - bs[i].size
  {
    SpliceTiled(bs, i, 1, [bs[i].(free := true)], lo, hi);
    SpliceUsedSize(bs, i, 1, [bs[i].(free := true)]);
  }

  lemma FreeAtKeepsTiling(bs: seq<Block>, i: nat, mergePrev: bool, lo: int, hi: int)
    requires 0 < i < |bs| && Tiled(bs, lo, hi) && !bs[i].free
    ensures Tiled(FreeAt(bs, i, mergePrev), lo, hi)
    ensures UsedSize(FreeAt(bs, i, mergePrev)) == UsedSize(bs) - bs[i].size
  {
    SetFreeKeepsTiling(bs, i, lo, hi);
    assert SetFree(bs, i)[i + 0].free;
    MergeNextKeepsTiling(SetFree(bs, i), i, lo, hi);
    var merged := MergeNext(SetFree(bs, i), i);
    if mergePrev && bs[i - 1].free { MergeNextKeepsTiling(merged, i - 1, lo, hi); }
  }

  lemma FreeAtKeepsNoAdjacentFree(bs: seq<Block>, i: nat)
    requires 0 < i < |bs| && !bs[i].free && NoAdjacentFree(bs)
    ensures NoAdjacentFree(FreeAt(bs, i, true))
  {
    var freed := SetFree(bs, i);
    var merged := MergeNext(freed, i);
    assert merged[i + 0].free;
    assert forall k | 0 < k < i :: !(merged[k - 1].free && merged[k].free);
    assert forall k | i < k < |merged| :: !(merged[k - 1].free && merged[k].free);
    if bs[i - 1].free {
      var r := MergeNext(merged, i - 1);
      assert r == FreeAt(bs, i, true);
      assert r[i - 1 + 0].free;
    }
  }

  /** All free and coalesced: one block spans the arena behind the root header. */
  lemma AllFreeIsOneBlock(bs: seq<Block>, lo: int, hi: int)
    requires Tiled(bs, lo, hi) && NoAdjacentFree(bs) && |bs| > 1
    requires bs[0] == Block(lo, 0, false) && forall i | 0 < i < |bs| :: bs[i].free
    ensures hi - lo >= 2 * HEADER
    ensures bs == [Block(lo, 0, false), Block(lo + HEADER, hi - lo - 2 * HEADER, true)]
  {
    assert bs[|bs| - 1].free;
    assert End(bs[0]) == bs[1].addr;
    assert End(bs[1]) == hi;
  }
}
