/**
  Kernel/memoryManagement/freeListMemoryManager.c as it runs: node headers threaded by `next` and
  `prev` through the memory they manage.  Each method is proved to perform the list operation of
  FreeListBlocks on the blocks its headers represent.
 */
module FreeListMemory {
  import opened Options
  import opened FreeListBlocks
  import opened FreeListRuns

  const NULL: int := 0

  datatype MMNode = MMNode(next: int, prev: int, memSize: int, isFree: bool)

  type Memory = map<int, MMNode>

  // ---------- What a memory represents ----------

  /** The header of block i, whatever its prev. */
  ghost predicate HeaderOf(m: Memory, bs: seq<Block>, i: nat)
    requires i < |bs|
  {
    var b := bs[i];
    && b.addr in m && m[b.addr].memSize == b.size && m[b.addr].isFree == b.free
    && m[b.addr].next == NextAddr(bs, i, NULL)
  }

  ghost predicate Represents(m: Memory, bs: seq<Block>) {
    forall i | 0 <= i < |bs| :: HeaderOf(m, bs, i)
  }

  /** The nodes reached from a by next tile [a, hi): each ends where the next begins, the last at hi. */
  ghost predicate TilesFrom(m: Memory, a: int, hi: int)
    decreases hi - a
  {
    && a in m && a < hi && m[a].memSize >= 0
    && var end := a + HEADER + m[a].memSize;
       if m[a].next == NULL then end == hi else m[a].next == end && TilesFrom(m, end, hi)
  }

  lemma {:induction false} RepresentedTiles(m: Memory, bs: seq<Block>, k: nat, lo: int, hi: int)
    requires Represents(m, bs) && Tiled(bs, lo, hi) && lo > NULL && k < |bs|
    ensures TilesFrom(m, bs[k].addr, hi)
    decreases |bs| - k
  {
    assert HeaderOf(m, bs, k);
    TiledInside(bs, lo, hi, k);
    if k + 1 < |bs| { RepresentedTiles(m, bs, k + 1, lo, hi); }
  }

  /** One header on the way that does not end where its next begins breaks the tiling. */
  lemma {:induction false} BrokenHeaderBreaksTiling(m: Memory, bs: seq<Block>, k: nat, j: nat, lo: int, hi: int)
    requires Tiled(bs, lo, hi) && lo > NULL && k <= j < |bs|
    requires forall i | 0 <= i < j :: HeaderOf(m, bs, i)
    requires bs[j].addr in m
    requires var n := m[bs[j].addr]; bs[j].addr + HEADER + n.memSize != if n.next == NULL then hi else n.next
    ensures !TilesFrom(m, bs[k].addr, hi)
    decreases j - k
  {
    TiledInside(bs, lo, hi, k);
    if k < j {
      assert HeaderOf(m, bs, k);
      TiledInside(bs, lo, hi, k + 1);
      BrokenHeaderBreaksTiling(m, bs, k + 1, j, lo, hi);
    }
  }

  function LastAddr(parts: seq<Block>): int
    requires |parts| > 0
  {
    parts[|parts| - 1].addr
  }

  /** Block k keeps its header; the one at end may have its prev set to last. */
  ghost predicate KeptHeader(m: Memory, m': Memory, bs: seq<Block>, end: nat, k: nat, updates: bool, last: int)
    requires k < |bs|
  {
    var a := bs[k].addr;
    && a in m && a in m'
    && m'[a] == m[a].(prev := if updates && k == end then last else m[a].prev)
  }

  ghost predicate KeptAround(m: Memory, m': Memory, bs: seq<Block>, i: nat, end: nat, updates: bool, last: int) {
    forall k | 0 <= k < |bs| && (k < i || end <= k) :: KeptHeader(m, m', bs, end, k, updates, last)
  }

  /**
    From m to m' the headers of blocks i to end became those of one or two parts, every other block
    kept its header, and with updates the block after the span points back at the last part.
   */
  ghost predicate Rewrites(m: Memory, m': Memory, bs: seq<Block>, i: nat, end: nat, parts: seq<Block>, updates: bool)
    requires i < end <= |bs| && 1 <= |parts| <= 2
  {
    var after := NextAddr(bs, end - 1, NULL);
    && m.Keys <= m'.Keys
    && parts[0].addr == bs[i].addr && bs[i].addr in m && bs[i].addr in m'
    && m'[bs[i].addr] == MMNode(if |parts| == 2 then parts[1].addr else after, m[bs[i].addr].prev,
                                parts[0].size, parts[0].free)
    && (|parts| == 2 ==> parts[1].addr in m')
    && (|parts| == 2 ==> m'[parts[1].addr] == MMNode(after, parts[0].addr, parts[1].size, parts[1].free))
    && KeptAround(m, m', bs, i, end, updates, LastAddr(parts))
  }

  /** When the headers of a span are rewritten to those of the parts, the list is spliced. */
  lemma SpliceRepresents(m: Memory, m': Memory, bs: seq<Block>, i: nat, end: nat, parts: seq<Block>, updates: bool)
    requires i < end <= |bs| && 1 <= |parts| <= 2
    requires Represents(m, bs) && Rewrites(m, m', bs, i, end, parts, updates)
    ensures Represents(m', Splice(bs, i, end - i, parts))
  {
    var r, last := Splice(bs, i, end - i, parts), LastAddr(parts);
    assert r[i + 0] == parts[0] && (|parts| == 2 ==> r[i + 1] == parts[1]);
    forall k | 0 <= k < |r| ensures HeaderOf(m', r, k) {
      if k < i {
        assert HeaderOf(m, bs, k) && KeptHeader(m, m', bs, end, k, updates, last);
      } else if k < i + |parts| {
        assert i + |parts| < |r| ==> r[i + |parts|] == bs[end];
      } else {
        var j := k - |parts| + (end - i);
        assert HeaderOf(m, bs, j) && KeptHeader(m, m', bs, end, j, updates, last);
      }
    }
  }

  /** Each prev is where an earlier header is, and, with updates, where the block before starts. */
  ghost predicate GoodPrev(m: Memory, bs: seq<Block>, k: nat, exact: bool)
    requires 0 < k < |bs|
  {
    bs[k].addr in m ==>
      && m[bs[k].addr].prev in m && NULL < m[bs[k].addr].prev < bs[k].addr
      && (exact ==> m[bs[k].addr].prev == bs[k - 1].addr)
  }

  ghost predicate GoodPrevs(m: Memory, bs: seq<Block>, exact: bool) {
    forall k | 0 < k < |bs| :: GoodPrev(m, bs, k, exact)
  }

  /** Splicing keeps the prev pointers as good as they were. */
  lemma SpliceKeepsPrevs(m: Memory, m': Memory, bs: seq<Block>, i: nat, end: nat, parts: seq<Block>, updates: bool,
                         exact: bool)
    requires 0 < i < end <= |bs| && 1 <= |parts| <= 2
    requires Rewrites(m, m', bs, i, end, parts, updates) && GoodPrevs(m, bs, exact)
    requires exact ==> updates || (|parts| == 1 && end == i + 1)
    requires NULL < parts[0].addr && (|parts| == 2 ==> parts[0].addr < parts[1].addr)
    requires end < |bs| ==> LastAddr(parts) < bs[end].addr
    ensures GoodPrevs(m', Splice(bs, i, end - i, parts), exact)
  {
    var r, last := Splice(bs, i, end - i, parts), LastAddr(parts);
    assert r[i + 0] == parts[0] && (|parts| == 2 ==> r[i + 1] == parts[1]);
    forall k | 0 < k < |r| ensures GoodPrev(m', r, k, exact) {
      if k < i {
        assert GoodPrev(m, bs, k, exact) && KeptHeader(m, m', bs, end, k, updates, last);
      } else if k < i + |parts| {
        assert GoodPrev(m, bs, i, exact);
      } else {
        var j := k - |parts| + (end - i);
        assert GoodPrev(m, bs, j, exact) && KeptHeader(m, m', bs, end, j, updates, last);
        assert j > end ==> r[k - 1] == bs[j - 1];
      }
    }
  }

  // ---------- What the operations write ----------

  /** The node at a, if there is one, points back at node. */
  function PointBack(m: Memory, a: int, node: int): Memory {
    if a != NULL && a in m then m[a := m[a].(prev := node)] else m
  }

  /** The node at a is cut down to that many bytes, header included, and the rest becomes a free node. */
  function SplitMemory(m: Memory, a: int, bytes: nat, updates: bool): Memory
    requires a in m
  {
    var m1 := m[a + bytes := MMNode(m[a].next, a, m[a].memSize - bytes, true)];
    var m2 := if updates then PointBack(m1, m[a].next, a + bytes) else m1;
    m2[a := m[a].(next := a + bytes, memSize := bytes - HEADER)]
  }

  /** The node at a is split, if it has more than that many bytes, and is no longer free. */
  function TakeMemory(m: Memory, a: int, bytes: nat, updates: bool): Memory
    requires a in m
  {
    var m1 := if m[a].memSize > bytes then SplitMemory(m, a, bytes, updates) else m;
    m1[a := m1[a].(isFree := false)]
  }

  /** The header at a absorbs the one at b; with updates, the node after b points back at a. */
  function AbsorbMemory(m: Memory, a: int, b: int, updates: bool): (r: Memory)
    requires a in m && b in m
    ensures r.Keys == m.Keys
  {
    var m1 := m[a := m[a].(memSize := m[a].memSize + (m[b].memSize + HEADER), next := m[b].next)];
    if updates then PointBack(m1, m[b].next, a) else m1
  }

  predicate FreeNode(m: Memory, a: int) { a != NULL && a in m && m[a].isFree }

  function MergeNextMemory(m: Memory, a: int, updates: bool): (r: Memory)
    requires a in m
    ensures r.Keys == m.Keys
  {
    if FreeNode(m, m[a].next) then AbsorbMemory(m, a, m[a].next, updates) else m
  }

  function MergePrevMemory(m: Memory, a: int, updates: bool): (r: Memory)
    requires a in m
    ensures r.Keys == m.Keys
  {
    if FreeNode(m, m[a].prev) then AbsorbMemory(m, m[a].prev, a, updates) else m
  }

  function FreeMemory(m: Memory, a: int, updates: bool): (r: Memory)
    requires a in m
    ensures r.Keys == m.Keys
  {
    MergePrevMemory(MergeNextMemory(m[a := m[a].(isFree := true)], a, updates), a, updates)
  }

  // ---------- The allocator ----------

  class MemoryManager {
    /** false: as written; true: with the successor's `prev` updated on every split and merge. */
    const updatesPrev: bool
    const head: int
    const totalMemory: nat
    var memory: Memory
    var freeMemory: int
    var usedMemory: int
    ghost var blocks: seq<Block>

    ghost function Limit(): int { head + totalMemory }

    ghost predicate Valid()
      reads this
    {
      && head > NULL
      && Tiled(blocks, head, Limit()) && |blocks| > 1 && blocks[0] == Block(head, 0, false)
      && Represents(memory, blocks) && GoodPrevs(memory, blocks, updatesPrev)
      && usedMemory == UsedSize(blocks) && freeMemory + usedMemory == totalMemory
      && (updatesPrev ==> NoAdjacentFree(blocks))
    }

    /** initMemory: the root header, which is never free, and one free node behind it. */
    constructor (init: int, size: nat, updatesPrev: bool)
      requires init > NULL && size >= 2 * HEADER
      ensures Valid() && head == init && totalMemory == size && this.updatesPrev == updatesPrev
      ensures blocks == InitialBlocks(init, size)
      ensures memory == map[init := MMNode(init + HEADER, NULL, 0, false),
                            init + HEADER := MMNode(NULL, init, size - 2 * HEADER, true)]
    {
      this.updatesPrev := updatesPrev;
      head := init;
      totalMemory := size;
      memory := map[
        init := MMNode(init + HEADER, NULL, 0, false),
        init + HEADER := MMNode(NULL, init, size - 2 * HEADER, true)
      ];
      freeMemory := size;
      usedMemory := 0;
      blocks := InitialBlocks(init, size);
      InitialUsedSize(init, size);
    }

    /** genericAllocMemory: first fit, with the surplus split off. */
    method GenericAllocMemory(blockSize: nat, memoryToAllocate: nat) returns (p: int)
      requires Valid() && blockSize > 0
      modifies this
      ensures Valid()
      ensures var (blocks', found) := AllocFirst(old(blocks), blockSize, memoryToAllocate);
        blocks == blocks' && p == match found case None => NULL case Some(q) => q
      ensures p == NULL ==> memory == old(memory)
      ensures p != NULL ==>
        && p - HEADER in old(memory)
        && memory == TakeMemory(old(memory), p - HEADER, BytesToTake(blockSize, memoryToAllocate), updatesPrev)
      ensures KeepsPayloads(old(memory), memory, old(blocks))
    {
      TakesEnough(blockSize, memoryToAllocate);
      var bytes := BytesToTake(blockSize, memoryToAllocate);
      assert HeaderOf(memory, blocks, 0);
      TiledInside(blocks, head, Limit(), 1);
      var currentNode := memory[head].next;
      ghost var i := 1;
      while currentNode != NULL
        invariant 1 <= i <= |blocks| && Valid() && blocks == old(blocks) && memory == old(memory)
        invariant currentNode == if i < |blocks| then blocks[i].addr else NULL
        invariant i < |blocks| ==> currentNode > NULL
        invariant FirstFit(blocks, bytes, 1) == FirstFit(blocks, bytes, i)
        decreases |blocks| - i
      {
        assert HeaderOf(memory, blocks, i);
        if memory[currentNode].isFree && memory[currentNode].memSize >= bytes {
          Take(currentNode, bytes, i);
          return currentNode + HEADER;
        }
        currentNode := memory[currentNode].next;
        i := i + 1;
        if i < |blocks| { TiledInside(blocks, head, Limit(), i); }
      }
      return NULL;
    }

    /** The body of the loop of genericAllocMemory once a fitting node is found. */
    method Take(currentNode: int, bytes: nat, ghost i: nat)
      requires Valid() && 0 < i < |blocks| && currentNode == blocks[i].addr
      requires Fits(blocks[i], bytes) && bytes >= HEADER
      modifies this
      ensures Valid() && blocks == AllocAt(old(blocks), i, bytes)
      ensures currentNode in old(memory) && memory == TakeMemory(old(memory), currentNode, bytes, updatesPrev)
      ensures KeepsPayloads(old(memory), memory, old(blocks))
    {
      ghost var m, bs := memory, blocks;
      assert HeaderOf(m, bs, i);
      if memory[currentNode].memSize > bytes {
        SplitNode(currentNode, bytes, i);
      }
      ghost var m1 := memory;
      memory := memory[currentNode := memory[currentNode].(isFree := false)];
      TakeKeepsPayloads(m, bs, i, bytes, updatesPrev, head, Limit());
      TakeRewrites(m, m1, memory, bs, i, bytes, updatesPrev, head, Limit());
      TakeKeepsHeaders(m, memory, bs, i, bytes, updatesPrev, head, Limit());
      blocks := AllocAt(bs, i, bytes);
      assert blocks[i + 0] == Taken(bs[i], bytes)[0] && HeaderOf(memory, blocks, i);
      freeMemory := freeMemory - memory[currentNode].memSize;
      usedMemory := usedMemory + memory[currentNode].memSize;
      AllocAtKeepsTiling(bs, i, bytes, head, Limit());
      if updatesPrev { AllocAtKeepsNoAdjacentFree(bs, i, bytes); }
      assert blocks[0] == bs[0];
    }

    /**
      genericFreeMemory, of an address the allocator handed out.  What it does to the list and what it
      does to the payloads depend on the node the prev of the freed one names, each in its own way.
     */
    method GenericFreeMemory(memoryToFree: int, ghost i: nat)
      requires Valid() && FindBlock(blocks, memoryToFree, 1) == Some(i)
      modifies this
      ensures memoryToFree - HEADER in old(memory)
      ensures memory == FreeMemory(old(memory), memoryToFree - HEADER, updatesPrev)
      ensures TilesFrom(memory, head, Limit()) <==> old(PrevKeepsTiling(memory, blocks, i))
      ensures old(PrevKeepsTiling(memory, blocks, i)) ==>
        Valid() && blocks == FreeAt(old(blocks), i, old(PrevIsBefore(memory, blocks, i)))
      ensures KeepsPayloads(old(memory), memory, old(blocks)) <==> old(PrevSparesPayloads(memory, blocks, i))
      ensures updatesPrev ==> old(PrevIsBefore(memory, blocks, i))
    {
      ghost var bs, m := blocks, memory;
      FreeNodeAndMerge(memoryToFree - HEADER, i);
      FreeSparesIff(m, memory, bs, i, updatesPrev, head, Limit());
    }

    /** The same, of the node at the head of block i, as far as the list goes. */
    method FreeNodeAndMerge(currentNode: int, ghost i: nat)
      requires Valid() && 0 < i < |blocks| && currentNode == blocks[i].addr && !blocks[i].free
      modifies this
      ensures currentNode in old(memory) && memory == FreeMemory(old(memory), currentNode, updatesPrev)
      ensures TilesFrom(memory, head, Limit()) <==> old(PrevKeepsTiling(memory, blocks, i))
      ensures old(PrevKeepsTiling(memory, blocks, i)) ==>
        Valid() && blocks == FreeAt(old(blocks), i, old(PrevIsBefore(memory, blocks, i)))
      ensures updatesPrev ==> old(PrevIsBefore(memory, blocks, i))
    {
      ghost var bs, m := blocks, memory;
      assert HeaderOf(m, bs, i) && GoodPrev(m, bs, i, updatesPrev);
      FreeAndMergeNext(currentNode, i);
      SamePrevCondition(m, memory, bs, i, updatesPrev, head, Limit());
      MergeWithPrev(currentNode, i);
      assert memory == FreeMemory(m, currentNode, updatesPrev);
      FreeAtFacts(bs, i, PrevIsBefore(m, bs, i), head, Limit());
    }

    /** Clients write what they like where no header of the list is, old headers included. */
    method ClientWrites(written: Memory)
      requires Valid() && memory.Keys <= written.Keys
      requires forall k | 0 <= k < |blocks| && blocks[k].addr in memory ::
        written[blocks[k].addr] == memory[blocks[k].addr]
      modifies this`memory
      ensures Valid() && memory == written
    {
      ghost var m := memory;
      memory := written;
      forall k | 0 <= k < |blocks| ensures HeaderOf(memory, blocks, k) { assert HeaderOf(m, blocks, k); }
      forall k | 0 < k < |blocks| ensures GoodPrev(memory, blocks, k, updatesPrev) {
        assert HeaderOf(m, blocks, k) && GoodPrev(m, blocks, k, updatesPrev);
      }
    }

    /** Merges currentNode into the node its prev points at, if that one is free. */
    method MergeWithPrev(currentNode: int, ghost i: nat)
      requires head > NULL && Tiled(blocks, head, Limit()) && Represents(memory, blocks)
      requires GoodPrevs(memory, blocks, updatesPrev)
      requires 0 < i < |blocks| && currentNode == blocks[i].addr && blocks[i].free && !blocks[0].free
      modifies this`memory, this`blocks
      ensures currentNode in old(memory) && memory == MergePrevMemory(old(memory), currentNode, updatesPrev)
      ensures TilesFrom(memory, head, Limit()) <==> old(PrevKeepsTiling(memory, blocks, i))
      ensures old(PrevKeepsTiling(memory, blocks, i)) ==>
        && Represents(memory, blocks) && GoodPrevs(memory, blocks, updatesPrev)
        && blocks == if old(PrevIsBefore(memory, blocks, i) && blocks[i - 1].free)
                     then MergeNext(old(blocks), i - 1) else old(blocks)
    {
      ghost var m, bs := memory, blocks;
      assert HeaderOf(m, bs, i) && GoodPrev(m, bs, i, updatesPrev) && HeaderOf(m, bs, i - 1);
      TiledInside(bs, head, Limit(), i - 1);
      if i + 1 < |bs| {
        assert HeaderOf(m, bs, i + 1);
        TiledOrdered(bs, head, Limit(), i, i + 1);
      }
      var prev := memory[currentNode].prev;
      if prev != NULL && memory[prev].isFree {
        Absorb(prev, currentNode);
        if prev == bs[i - 1].addr {
          MergeNextRewrites(m, memory, bs, i - 1, updatesPrev, head, Limit());
          blocks := MergeNext(bs, i - 1);
          MergeNextKeepsTiling(bs, i - 1, head, Limit());
          RepresentedTiles(memory, blocks, 0, head, Limit());
        } else {
          StaleMerge(m, memory, bs, i, head, Limit());
        }
      } else {
        RepresentedTiles(memory, blocks, 0, head, Limit());
      }
    }

    /** The assignments of either merge: node takes over the space and the next of the absorbed one. */
    method Absorb(node: int, absorbed: int)
      requires node in memory && absorbed in memory && node != absorbed && node != memory[absorbed].next
      requires memory[absorbed].next == NULL || memory[absorbed].next in memory
      modifies this`memory
      ensures memory == AbsorbMemory(old(memory), node, absorbed, updatesPrev)
    {
      memory := memory[node := memory[node].(memSize := memory[node].memSize + (memory[absorbed].memSize + HEADER),
                                             next := memory[absorbed].next)];
      if updatesPrev && memory[node].next != NULL {
        var successor := memory[node].next;
        memory := memory[successor := memory[successor].(prev := node)];
      }
    }

    /** Marks currentNode free and merges it with the node after it, if that one is free. */
    method FreeAndMergeNext(currentNode: int, ghost i: nat)
      requires Valid() && 0 < i < |blocks| && currentNode == blocks[i].addr && !blocks[i].free
      modifies this
      ensures blocks == MergeNext(SetFree(old(blocks), i), i)
      ensures Tiled(blocks, head, Limit()) && Represents(memory, blocks) && GoodPrevs(memory, blocks, updatesPrev)
      ensures usedMemory == UsedSize(blocks) && freeMemory + usedMemory == totalMemory
      ensures currentNode in old(memory)
      ensures memory == MergeNextMemory(old(memory)[currentNode := old(memory)[currentNode].(isFree := true)],
                                        currentNode, updatesPrev)
      ensures forall a | a in memory && a < currentNode :: memory[a] == old(memory)[a]
      ensures currentNode in memory && memory[currentNode].prev == old(memory)[currentNode].prev
    {
      ghost var m, bs := memory, blocks;
      assert HeaderOf(m, bs, i);
      memory := memory[currentNode := memory[currentNode].(isFree := true)];
      freeMemory := freeMemory + memory[currentNode].memSize;
      usedMemory := usedMemory - memory[currentNode].memSize;
      ghost var m1, freed := memory, SetFree(bs, i);
      SetFreeRewrites(m, m1, bs, i, updatesPrev, head, Limit());
      SetFreeKeepsTiling(bs, i, head, Limit());
      assert freed[i + 0] == bs[i].(free := true) && HeaderOf(m1, freed, i);
      assert i + 1 < |freed| ==> HeaderOf(m1, freed, i + 1);
      assert i + 2 < |freed| ==> HeaderOf(m1, freed, i + 2);
      TiledInside(freed, head, Limit(), i);
      if i + 1 < |freed| { TiledOrdered(freed, head, Limit(), i, i + 1); }
      if i + 2 < |freed| { TiledOrdered(freed, head, Limit(), i, i + 2); }
      var next := memory[currentNode].next;
      if next != NULL && memory[next].isFree {
        Absorb(currentNode, next);
        MergeNextRewrites(m1, memory, freed, i, updatesPrev, head, Limit());
        MergeNextKeepsTiling(freed, i, head, Limit());
      }
      blocks := MergeNext(freed, i);
    }

    /** Splits what currentNode has beyond that many bytes off into a free node behind it. */
    method SplitNode(currentNode: int, bytes: nat, ghost i: nat)
      requires Valid() && 0 < i < |blocks| && currentNode == blocks[i].addr
      requires Fits(blocks[i], bytes) && bytes >= HEADER && blocks[i].size > bytes
      modifies this`memory
      ensures currentNode in old(memory) && memory == SplitMemory(old(memory), currentNode, bytes, updatesPrev)
      ensures var n := old(memory)[currentNode];
        && currentNode in memory && memory[currentNode] == n.(next := currentNode + bytes, memSize := bytes - 32)
        && currentNode + bytes in memory
        && memory[currentNode + bytes] == MMNode(n.next, currentNode, n.memSize - bytes, true)
    {
      assert HeaderOf(memory, blocks, i);
      var newNode := currentNode + bytes;
      var successor := memory[currentNode].next;
      if i + 1 < |blocks| {
        assert HeaderOf(memory, blocks, i + 1);
        TiledOrdered(blocks, head, Limit(), i, i + 1);
      }
      memory := memory[newNode := MMNode(successor, currentNode, memory[currentNode].memSize - bytes, true)];
      if updatesPrev && memory[newNode].next != NULL {
        memory := memory[successor := memory[successor].(prev := newNode)];
      }
      memory := memory[currentNode := memory[currentNode].(next := newNode, memSize := bytes - HEADER)];
    }
  }

  /** What taking block i whole does to every header. */
  lemma WholeRewrites(m: Memory, m': Memory, bs: seq<Block>, i: nat, bytes: nat, lo: int, hi: int)
    requires Tiled(bs, lo, hi) && Represents(m, bs) && 0 < i < |bs| && bs[i].addr in m
    requires Fits(bs[i], bytes) && bs[i].size == bytes >= HEADER
    requires m' == m[bs[i].addr := m[bs[i].addr].(isFree := false)]
    ensures Rewrites(m, m', bs, i, i + 1, Taken(bs[i], bytes), false)
  {
    var last, end := LastAddr(Taken(bs[i], bytes)), i + 1;
    assert HeaderOf(m, bs, i);
    TiledDistinct(bs, lo, hi, i);
    forall k | 0 <= k < |bs| && (k < i || end <= k) ensures KeptHeader(m, m', bs, end, k, false, last) {
      assert HeaderOf(m, bs, k);
    }
  }

  /** What taking part of block i does to every header. */
  lemma SplitRewrites(m: Memory, m1: Memory, m': Memory, bs: seq<Block>, i: nat, bytes: nat, updates: bool, lo: int,
                      hi: int)
    requires Tiled(bs, lo, hi) && lo > NULL && Represents(m, bs) && 0 < i < |bs|
    requires Fits(bs[i], bytes) && bs[i].size > bytes >= HEADER
    requires bs[i].addr in m && m1 == SplitMemory(m, bs[i].addr, bytes, updates)
    requires m' == m1[bs[i].addr := m1[bs[i].addr].(isFree := false)]
    ensures Rewrites(m, m', bs, i, i + 1, Taken(bs[i], bytes), updates)
  {
    var last, end := bs[i].addr + bytes, i + 1;
    assert HeaderOf(m, bs, i);
    forall k | 0 <= k < |bs| && (k < i || end <= k) ensures KeptHeader(m, m', bs, end, k, updates, last) {
      SplitKeepsHeader(m, m1, bs, i, bytes, updates, lo, hi, k);
      TiledDistinct(bs, lo, hi, i);
    }
  }

  lemma SplitKeepsHeader(m: Memory, m1: Memory, bs: seq<Block>, i: nat, bytes: nat, updates: bool, lo: int, hi: int,
                         k: nat)
    requires Tiled(bs, lo, hi) && lo > NULL && Represents(m, bs) && 0 < i < |bs|
    requires Fits(bs[i], bytes) && bs[i].size > bytes >= HEADER
    requires bs[i].addr in m && m1 == SplitMemory(m, bs[i].addr, bytes, updates)
    requires k < |bs| && k != i
    ensures KeptHeader(m, m1, bs, i + 1, k, updates, bs[i].addr + bytes)
  {
    assert HeaderOf(m, bs, i) && HeaderOf(m, bs, k);
    NothingStartsInside(bs, lo, hi, i, bs[i].addr + bytes);
    TiledDistinct(bs, lo, hi, k);
    TiledInside(bs, lo, hi, k);
    assert bs[k].addr != bs[i].addr && bs[k].addr != bs[i].addr + bytes;
    assert bs[k].addr == m[bs[i].addr].next <==> k == i + 1;
  }

  /** What taking block i does to every header, split or not. */
  lemma TakeRewrites(m: Memory, m1: Memory, m': Memory, bs: seq<Block>, i: nat, bytes: nat, updates: bool, lo: int,
                     hi: int)
    requires Tiled(bs, lo, hi) && lo > NULL && Represents(m, bs)
    requires 0 < i < |bs| && Fits(bs[i], bytes) && bytes >= HEADER && bs[i].addr in m
    requires if bs[i].size > bytes then m1 == SplitMemory(m, bs[i].addr, bytes, updates) else m1 == m
    requires bs[i].addr in m1 && m' == m1[bs[i].addr := m1[bs[i].addr].(isFree := false)]
    ensures Rewrites(m, m', bs, i, i + 1, Taken(bs[i], bytes), updates && bs[i].size > bytes)
  {
    if bs[i].size > bytes {
      SplitRewrites(m, m1, m', bs, i, bytes, updates, lo, hi);
    } else {
      WholeRewrites(m, m', bs, i, bytes, lo, hi);
    }
  }

  lemma TakeKeepsHeaders(m: Memory, m': Memory, bs: seq<Block>, i: nat, bytes: nat, updates: bool, lo: int, hi: int)
    requires Tiled(bs, lo, hi) && lo > NULL && Represents(m, bs) && GoodPrevs(m, bs, updates)
    requires 0 < i < |bs| && Fits(bs[i], bytes) && bytes >= HEADER
    requires Rewrites(m, m', bs, i, i + 1, Taken(bs[i], bytes), updates && bs[i].size > bytes)
    ensures Represents(m', AllocAt(bs, i, bytes)) && GoodPrevs(m', AllocAt(bs, i, bytes), updates)
  {
    var parts, split := Taken(bs[i], bytes), updates && bs[i].size > bytes;
    SpliceRepresents(m, m', bs, i, i + 1, parts, split);
    TiledInside(bs, lo, hi, i);
    if i + 1 < |bs| { TiledOrdered(bs, lo, hi, i, i + 1); }
    SpliceKeepsPrevs(m, m', bs, i, i + 1, parts, split, updates);
  }

  // ---------- Payloads ----------

  /** A header at x would reach into the payload of b, which a client holds. */
  predicate Overlaps(b: Block, x: int) { !b.free && b.size > 0 && b.addr < x < End(b) }

  predicate Spared(bs: seq<Block>, x: int) { forall k | 0 <= k < |bs| :: !Overlaps(bs[k], x) }

  predicate Changed(m: Memory, m': Memory, x: int) { x in m' && (x !in m || m'[x] != m[x]) }

  /** No header that changed from m to m' reaches into the payload of an allocated block. */
  ghost predicate KeepsPayloads(m: Memory, m': Memory, bs: seq<Block>) {
    m.Keys <= m'.Keys && forall x | Changed(m, m', x) :: Spared(bs, x)
  }

  /** Inside a block there is a payload behind its header only, and only while it is allocated. */
  lemma HeadersAreSpared(bs: seq<Block>, lo: int, hi: int, k: nat, x: int)
    requires Tiled(bs, lo, hi) && k < |bs| && bs[k].addr <= x < End(bs[k])
    requires bs[k].free || x == bs[k].addr
    ensures Spared(bs, x)
  {
    forall j | 0 <= j < |bs| ensures !Overlaps(bs[j], x) {
      if j < k { TiledOrdered(bs, lo, hi, j, k); } else if j > k { TiledOrdered(bs, lo, hi, k, j); }
    }
  }

  lemma TakeKeepsPayloads(m: Memory, bs: seq<Block>, i: nat, bytes: nat, updates: bool, lo: int, hi: int)
    requires Tiled(bs, lo, hi) && Represents(m, bs)
    requires 0 < i < |bs| && Fits(bs[i], bytes) && bytes >= HEADER && bs[i].addr in m
    ensures KeepsPayloads(m, TakeMemory(m, bs[i].addr, bytes, updates), bs)
  {
    assert HeaderOf(m, bs, i);
    HeadersAreSpared(bs, lo, hi, i, bs[i].addr);
    if bs[i].size > bytes { HeadersAreSpared(bs, lo, hi, i, bs[i].addr + bytes); }
    if i + 1 < |bs| { HeadersAreSpared(bs, lo, hi, i + 1, bs[i + 1].addr); }
  }

  /** Absorbing writes the header at a and, with updates, the one after b. */
  lemma AbsorbKeepsPayloads(m: Memory, a: int, b: int, updates: bool, bs: seq<Block>)
    requires a in m && b in m && Spared(bs, a)
    requires m[b].next == NULL || Spared(bs, m[b].next)
    ensures KeepsPayloads(m, AbsorbMemory(m, a, b, updates), bs)
  {
  }

  lemma KeepsPayloadsTwice(m: Memory, m1: Memory, m2: Memory, bs: seq<Block>)
    requires KeepsPayloads(m, m1, bs) && KeepsPayloads(m1, m2, bs)
    ensures KeepsPayloads(m, m2, bs)
  {
    forall x | Changed(m, m2, x) ensures Spared(bs, x) {
      assert Changed(m, m1, x) || Changed(m1, m2, x);
    }
  }

  /** The prev of block i is the block before it, or not free, or in no allocated payload. */
  ghost predicate PrevSparesPayloads(m: Memory, bs: seq<Block>, i: nat)
    requires 0 < i < |bs|
  {
    bs[i].addr in m &&
      var prev := m[bs[i].addr].prev;
      prev == bs[i - 1].addr || (prev in m && !m[prev].isFree) || Spared(bs, prev)
  }

  /** Setting block i free and merging it with the next one writes to headers of the list only. */
  lemma MergeNextKeepsPayloads(m: Memory, bs: seq<Block>, i: nat, updates: bool, lo: int, hi: int)
    requires Tiled(bs, lo, hi) && lo > NULL && Represents(m, bs) && 0 < i < |bs| && bs[i].addr in m
    ensures var m2 := MergeNextMemory(m[bs[i].addr := m[bs[i].addr].(isFree := true)], bs[i].addr, updates);
      && KeepsPayloads(m, m2, bs)
      && m2[bs[i].addr].prev == m[bs[i].addr].prev && m2[bs[i].addr].memSize >= 0
      && (m2[bs[i].addr].next == NULL || Spared(bs, m2[bs[i].addr].next))
      && forall x | x in m && x < bs[i].addr :: m2[x] == m[x]
  {
    var a := bs[i].addr;
    var m1 := m[a := m[a].(isFree := true)];
    assert HeaderOf(m, bs, i);
    HeadersAreSpared(bs, lo, hi, i, a);
    assert KeepsPayloads(m, m1, bs);
    if i + 1 < |bs| {
      assert HeaderOf(m, bs, i + 1);
      HeadersAreSpared(bs, lo, hi, i + 1, bs[i + 1].addr);
      TiledOrdered(bs, lo, hi, i, i + 1);
    }
    if i + 2 < |bs| {
      HeadersAreSpared(bs, lo, hi, i + 2, bs[i + 2].addr);
      TiledOrdered(bs, lo, hi, i, i + 2);
      TiledOrdered(bs, lo, hi, i + 1, i + 2);
    }
    if FreeNode(m1, m1[a].next) {
      AbsorbKeepsPayloads(m1, a, m1[a].next, updates, bs);
      KeepsPayloadsTwice(m, m1, AbsorbMemory(m1, a, m1[a].next, updates), bs);
    }
  }

  /** A free writes into no payload if and only if the node it may merge into lies in none. */
  lemma FreeSparesIff(m: Memory, m': Memory, bs: seq<Block>, i: nat, updates: bool, lo: int, hi: int)
    requires Tiled(bs, lo, hi) && lo > NULL && Represents(m, bs) && GoodPrevs(m, bs, updates)
    requires 0 < i < |bs| && bs[i].addr in m && m' == FreeMemory(m, bs[i].addr, updates)
    ensures KeepsPayloads(m, m', bs) <==> PrevSparesPayloads(m, bs, i)
  {
    var a, prev := bs[i].addr, m[bs[i].addr].prev;
    var m2 := MergeNextMemory(m[a := m[a].(isFree := true)], a, updates);
    assert GoodPrev(m, bs, i, updates);
    MergeNextKeepsPayloads(m, bs, i, updates, lo, hi);
    TiledOrdered(bs, lo, hi, i - 1, i);
    HeadersAreSpared(bs, lo, hi, i - 1, bs[i - 1].addr);
    if FreeNode(m2, prev) {
      if Spared(bs, prev) {
        AbsorbKeepsPayloads(m2, prev, a, updates, bs);
        KeepsPayloadsTwice(m, m2, m', bs);
      } else {
        assert m'[prev].memSize > m[prev].memSize;
        assert Changed(m, m', prev);
      }
    }
  }

  // ---------- Freeing ----------

  lemma FreeAtFacts(bs: seq<Block>, i: nat, before: bool, lo: int, hi: int)
    requires 0 < i < |bs| && Tiled(bs, lo, hi) && !bs[i].free && !bs[0].free
    ensures var r := FreeAt(bs, i, before);
      && Tiled(r, lo, hi) && |r| > 1 && r[0] == bs[0]
      && UsedSize(r) == UsedSize(MergeNext(SetFree(bs, i), i))
      && (before && NoAdjacentFree(bs) ==> NoAdjacentFree(r))
  {
    FreeAtKeepsTiling(bs, i, false, lo, hi);
    FreeAtKeepsTiling(bs, i, before, lo, hi);
    FreeAtKeepsTheRoot(bs, i, before);
    if before && NoAdjacentFree(bs) { FreeAtKeepsNoAdjacentFree(bs, i); }
  }

  ghost predicate PrevIsBefore(m: Memory, bs: seq<Block>, i: nat)
    requires 0 < i < |bs|
  {
    bs[i].addr in m && m[bs[i].addr].prev == bs[i - 1].addr
  }

  /** The prev of block i is the block before it, or is not free, or heads no block any more. */
  ghost predicate PrevKeepsTiling(m: Memory, bs: seq<Block>, i: nat)
    requires 0 < i < |bs|
  {
    bs[i].addr in m &&
      var prev := m[bs[i].addr].prev;
      prev == bs[i - 1].addr || (prev in m && !m[prev].isFree) || forall k | 0 <= k < |bs| :: bs[k].addr != prev
  }

  lemma MergedAroundBlock(bs: seq<Block>, i: nat)
    requires 0 < i < |bs|
    ensures var merged := MergeNext(SetFree(bs, i), i);
      && i < |merged| && merged[i].addr == bs[i].addr
      && forall k | 0 <= k < i :: merged[k] == bs[k]
  {
    var merged := MergeNext(SetFree(bs, i), i);
    assert merged[i + 0].addr == bs[i].addr;
  }

  /** An address below block i is where block k starts only if k is below i. */
  lemma StartsBelow(bs: seq<Block>, i: nat, a: int, lo: int, hi: int)
    requires Tiled(bs, lo, hi) && i < |bs| && a < bs[i].addr
    ensures forall k | i <= k < |bs| :: bs[k].addr != a
  {
    forall k | i <= k < |bs| ensures bs[k].addr != a {
      if i < k { TiledOrdered(bs, lo, hi, i, k); }
    }
  }

  lemma SamePrevCondition(m: Memory, m': Memory, bs: seq<Block>, i: nat, exact: bool, lo: int, hi: int)
    requires Tiled(bs, lo, hi) && 0 < i < |bs| && GoodPrev(m, bs, i, exact) && !bs[i].free
    requires m.Keys == m'.Keys && forall a | a in m && a < bs[i].addr :: m'[a] == m[a]
    requires bs[i].addr in m && m'[bs[i].addr].prev == m[bs[i].addr].prev
    ensures var merged := MergeNext(SetFree(bs, i), i);
      && i < |merged| && merged[i].addr == bs[i].addr && merged[i - 1] == bs[i - 1] && merged[0] == bs[0]
      && (PrevKeepsTiling(m', merged, i) <==> PrevKeepsTiling(m, bs, i))
      && (PrevIsBefore(m', merged, i) <==> PrevIsBefore(m, bs, i))
  {
    var merged, prev := MergeNext(SetFree(bs, i), i), m[bs[i].addr].prev;
    MergedAroundBlock(bs, i);
    StartsBelow(bs, i, prev, lo, hi);
    FreeAtKeepsTiling(bs, i, false, lo, hi);
    StartsBelow(merged, i, prev, lo, hi);
    assert (forall k | 0 <= k < |bs| :: bs[k].addr != prev) <==> (forall k | 0 <= k < i :: bs[k].addr != prev);
  }

  /**
    Merging block i into a free node that is not the block before it: the list stays as it is if that node
    heads no block any more, and otherwise the blocks between the two are lost from the list.
   */
  lemma StaleMerge(m: Memory, m': Memory, bs: seq<Block>, i: nat, lo: int, hi: int)
    requires Tiled(bs, lo, hi) && lo > NULL && Represents(m, bs) && GoodPrevs(m, bs, false)
    requires 0 < i < |bs| && bs[i].addr in m
    requires var prev := m[bs[i].addr].prev;
      && prev in m && m[prev].isFree && prev != bs[i - 1].addr && prev < bs[i].addr
      && m' == AbsorbMemory(m, prev, bs[i].addr, false)
    ensures TilesFrom(m', lo, hi) <==> PrevKeepsTiling(m, bs, i)
    ensures PrevKeepsTiling(m, bs, i) ==> Represents(m', bs) && GoodPrevs(m', bs, false)
  {
    var prev := m[bs[i].addr].prev;
    assert HeaderOf(m, bs, i);
    if PrevKeepsTiling(m, bs, i) {
      forall k | 0 <= k < |bs| ensures HeaderOf(m', bs, k) {
        assert HeaderOf(m, bs, k);
      }
      forall k | 0 < k < |bs| ensures GoodPrev(m', bs, k, false) {
        assert GoodPrev(m, bs, k, false);
      }
      RepresentedTiles(m', bs, 0, lo, hi);
    } else {
      var j :| 0 <= j < |bs| && bs[j].addr == prev;
      if i < j { TiledOrdered(bs, lo, hi, i, j); }
      TiledOrdered(bs, lo, hi, j, i);
      assert HeaderOf(m, bs, j);
      TiledDistinct(bs, lo, hi, j);
      forall k | 0 <= k < j ensures HeaderOf(m', bs, k) {
        assert HeaderOf(m, bs, k);
      }
      SkippedBlocksLeaveAGap(bs, j, i, lo, hi);
      BrokenHeaderBreaksTiling(m', bs, 0, j, lo, hi);
    }
  }

  // ---------- Two runs of the allocator as written ----------

  const BLOCK_SIZE: nat := 0x500

  /** Every header but the one a split writes has its prev still, and if it read free and was not taken it does. */
  ghost predicate KeepsMarks(m: Memory, m': Memory, written: int, taken: int) {
    forall x | x in m && x != written ::
      x in m' && m'[x].prev == m[x].prev && (m[x].isFree && x != taken ==> m'[x].isFree)
  }

  /** The prev of the header at a is that. */
  ghost predicate PointsBack(m: Memory, a: int, prev: int) { a in m && m[a].prev == prev }

  /** The first block that fits is split. */
  function SplitAt(bs: seq<Block>, i: nat, need: nat): seq<Block>
    requires i < |bs| && HEADER <= need < bs[i].size
  {
    bs[..i] + [Block(bs[i].addr, need - HEADER, false), Block(bs[i].addr + need, bs[i].size - need, true)] + bs[i + 1..]
  }

  lemma AllocFirstIs(bs: seq<Block>, request: nat, need: nat, i: nat)
    requires 0 < i < |bs| && need == BytesToTake(BLOCK_SIZE, request) && need >= HEADER
    requires bs[i].free && bs[i].size > need && forall k | 1 <= k < i :: !Fits(bs[k], need)
    ensures AllocFirst(bs, BLOCK_SIZE, request) == (SplitAt(bs, i, need), Some(Payload(bs[i])))
  {
    assert FirstFit(bs, need, 1) == Some(i);
  }

  lemma TakeKeepsMarks(m: Memory, m': Memory, a: int, need: nat)
    requires a in m && m[a].memSize > need >= HEADER && m' == TakeMemory(m, a, need, false)
    ensures KeepsMarks(m, m', a + need, a) && PointsBack(m', a + need, a)
  {
  }

  lemma FindBlockIs(bs: seq<Block>, i: nat, j: nat, lo: int, hi: int)
    requires i <= j < |bs| && !bs[j].free && Tiled(bs, lo, hi)
    ensures FindBlock(bs, Payload(bs[j]), i) == Some(j)
  {
    TiledDistinct(bs, lo, hi, j);
  }

  /** An allocation out of block i, which is larger than that. */
  method AllocFrom(mm: MemoryManager, request: nat, ghost need: nat, ghost i: nat) returns (p: int)
    requires mm.Valid() && !mm.updatesPrev && 0 < i < |mm.blocks|
    requires need == BytesToTake(BLOCK_SIZE, request) && need >= HEADER
    requires mm.blocks[i].free && mm.blocks[i].size > need && forall k | 1 <= k < i :: !Fits(mm.blocks[k], need)
    modifies mm
    ensures mm.Valid() && p == Payload(old(mm.blocks)[i])
    ensures mm.blocks == SplitAt(old(mm.blocks), i, need)
    ensures var b := old(mm.blocks)[i];
      && KeepsMarks(old(mm.memory), mm.memory, b.addr + need, b.addr)
      && PointsBack(mm.memory, b.addr + need, b.addr)
  {
    ghost var m, b := mm.memory, mm.blocks[i];
    AllocFirstIs(mm.blocks, request, need, i);
    assert HeaderOf(m, mm.blocks, i);
    TiledInside(mm.blocks, mm.head, mm.Limit(), i);
    p := mm.GenericAllocMemory(BLOCK_SIZE, request);
    TakeKeepsMarks(m, mm.memory, b.addr, need);
  }

  /** Freeing block i while its prev names the block before it. */
  method FreeBlock(mm: MemoryManager, ghost i: nat, p: int)
    requires mm.Valid() && !mm.updatesPrev && 0 < i < |mm.blocks|
    requires !mm.blocks[i].free && p == Payload(mm.blocks[i]) && PrevIsBefore(mm.memory, mm.blocks, i)
    modifies mm
    ensures mm.Valid() && mm.blocks == FreeAt(old(mm.blocks), i, true)
    ensures KeepsMarks(old(mm.memory), mm.memory, NULL, NULL)
  {
    FindBlockIs(mm.blocks, 1, i, mm.head, mm.Limit());
    mm.GenericFreeMemory(p, i);
  }

  /** Two nodes are taken, and the first, which is large, is freed. */
  method LargeNodeFreed() returns (mm: MemoryManager, y: int)
    ensures fresh(mm) && !mm.updatesPrev && mm.Valid() && y == 0x1F20 + HEADER
    ensures mm.blocks == [Block(0x1000, 0, false), Block(0x1020, 3808, true), Block(0x1F20, 1248, false),
                          Block(0x2420, 3008, true)]
    ensures PointsBack(mm.memory, 0x1020, 0x1000) && PointsBack(mm.memory, 0x1F20, 0x1020)
  {
    mm := new MemoryManager(0x1000, 0x2000, false);
    var x := AllocFrom(mm, 2528, 3840, 1);
    assert mm.blocks == [Block(0x1000, 0, false), Block(0x1020, 3808, false), Block(0x1F20, 4288, true)];
    y := AllocFrom(mm, 0, 1280, 2);
    assert mm.blocks == [Block(0x1000, 0, false), Block(0x1020, 3808, false), Block(0x1F20, 1248, false),
                         Block(0x2420, 3008, true)];
    FreeBlock(mm, 1, x);
  }

  /**
    A run that breaks the tiling.  The freed space is taken again in two parts; the prev of the node behind
    still names the first of them, and when both are freed the second part is lost.
   */
  method StalePrevRun() returns (mm: MemoryManager)
    ensures fresh(mm) && !mm.updatesPrev && !TilesFrom(mm.memory, mm.head, mm.Limit())
  {
    var y;
    mm, y := LargeNodeFreed();
    var x1 := AllocFrom(mm, 0, 1280, 1);
    assert mm.blocks == [Block(0x1000, 0, false), Block(0x1020, 1248, false), Block(0x1520, 2528, true),
                         Block(0x1F20, 1248, false), Block(0x2420, 3008, true)];
    var x2 := AllocFrom(mm, 0, 1280, 2);
    assert mm.blocks == [Block(0x1000, 0, false), Block(0x1020, 1248, false), Block(0x1520, 1248, false),
                         Block(0x1A20, 1248, true), Block(0x1F20, 1248, false), Block(0x2420, 3008, true)];
    FreeBlock(mm, 1, x1);
    assert mm.blocks == [Block(0x1000, 0, false), Block(0x1020, 1248, true), Block(0x1520, 1248, false),
                         Block(0x1A20, 1248, true), Block(0x1F20, 1248, false), Block(0x2420, 3008, true)];
    assert HeaderOf(mm.memory, mm.blocks, 1) && mm.memory[0x1F20].prev == mm.blocks[1].addr;
    assert !PrevKeepsTiling(mm.memory, mm.blocks, 4);
    FindBlockIs(mm.blocks, 1, 4, mm.head, mm.Limit());
    mm.GenericFreeMemory(y, 4);
  }

  method ThreeNodesTaken() returns (mm: MemoryManager, q: int, p: int, y: int)
    ensures fresh(mm) && !mm.updatesPrev && mm.Valid()
    ensures q == 0x1020 + HEADER && p == 0x1520 + HEADER && y == 0x1F20 + HEADER
    ensures mm.blocks == [Block(0x1000, 0, false), Block(0x1020, 1248, false), Block(0x1520, 2528, false),
                          Block(0x1F20, 1248, false), Block(0x2420, 3008, true)]
    ensures PointsBack(mm.memory, 0x1020, 0x1000) && PointsBack(mm.memory, 0x1520, 0x1020)
    ensures PointsBack(mm.memory, 0x1F20, 0x1520)
  {
    mm := new MemoryManager(0x1000, 0x2000, false);
    q := AllocFrom(mm, 0, 1280, 1);
    assert mm.blocks == [Block(0x1000, 0, false), Block(0x1020, 1248, false), Block(0x1520, 6848, true)];
    p := AllocFrom(mm, 2400, 2560, 2);
    assert mm.blocks == [Block(0x1000, 0, false), Block(0x1020, 1248, false), Block(0x1520, 2528, false),
                         Block(0x1F20, 4288, true)];
    y := AllocFrom(mm, 0, 1280, 3);
  }

  /** Three nodes are taken, and the second and the first are freed, which makes one of them. */
  method MiddleNodeAbsorbed() returns (mm: MemoryManager, y: int)
    ensures fresh(mm) && !mm.updatesPrev && mm.Valid() && y == 0x1F20 + HEADER
    ensures mm.blocks == [Block(0x1000, 0, false), Block(0x1020, 3808, true), Block(0x1F20, 1248, false),
                          Block(0x2420, 3008, true)]
    ensures PointsBack(mm.memory, 0x1F20, 0x1520) && mm.memory.Keys >= {0x1520} && mm.memory[0x1520].isFree
  {
    var q, p;
    mm, q, p, y := ThreeNodesTaken();
    FreeBlock(mm, 2, p);
    assert mm.blocks == [Block(0x1000, 0, false), Block(0x1020, 1248, false), Block(0x1520, 2528, true),
                         Block(0x1F20, 1248, false), Block(0x2420, 3008, true)];
    assert HeaderOf(mm.memory, mm.blocks, 2);
    FreeBlock(mm, 1, q);
  }

  /**
    A run that keeps the tiling and overwrites what a client holds.  The absorbed header still reads free
    when its place is payload again, and the prev of the node behind still names it.
   */
  method OverwritingRun() returns (mm: MemoryManager, ghost before: Memory, ghost held: seq<Block>)
    ensures fresh(mm) && !mm.updatesPrev && mm.Valid()
    ensures !KeepsPayloads(before, mm.memory, held)
    ensures var b := Block(0x1020, 2528, false); b in held && b in mm.blocks
  {
    var y;
    mm, y := MiddleNodeAbsorbed();
    var r := AllocFrom(mm, 2400, 2560, 1);
    before, held := mm.memory, mm.blocks;
    assert held == [Block(0x1000, 0, false), Block(0x1020, 2528, false), Block(0x1A20, 1248, true),
                    Block(0x1F20, 1248, false), Block(0x2420, 3008, true)];
    assert Overlaps(held[1], 0x1520);
    assert PrevKeepsTiling(before, held, 3) && !PrevSparesPayloads(before, held, 3);
    FindBlockIs(held, 1, 3, mm.head, mm.Limit());
    mm.GenericFreeMemory(y, 3);
    assert mm.blocks[1] == held[1];
  }

  lemma SkippedBlocksLeaveAGap(bs: seq<Block>, j: nat, i: nat, lo: int, hi: int)
    requires Tiled(bs, lo, hi) && lo > NULL && j + 1 < i < |bs|
    ensures End(bs[j]) + bs[i].size + HEADER < NextAddr(bs, i, hi)
    ensures i + 1 < |bs| ==> NextAddr(bs, i, NULL) != NULL
  {
    TiledOrdered(bs, lo, hi, j + 1, i);
    TiledInside(bs, lo, hi, i);
    assert End(bs[j]) == NextAddr(bs, j, hi);
    if i + 1 < |bs| { TiledInside(bs, lo, hi, i + 1); }
  }

  lemma SetFreeRewrites(m: Memory, m': Memory, bs: seq<Block>, i: nat, exact: bool, lo: int, hi: int)
    requires Tiled(bs, lo, hi) && lo > NULL && Represents(m, bs) && GoodPrevs(m, bs, exact)
    requires 0 < i < |bs| && bs[i].addr in m
    requires m' == m[bs[i].addr := m[bs[i].addr].(isFree := true)]
    ensures Represents(m', SetFree(bs, i)) && GoodPrevs(m', SetFree(bs, i), exact)
  {
    var parts, end := [bs[i].(free := true)], i + 1;
    var last := LastAddr(parts);
    assert HeaderOf(m, bs, i);
    TiledDistinct(bs, lo, hi, i);
    TiledInside(bs, lo, hi, i);
    if end < |bs| { TiledOrdered(bs, lo, hi, i, end); }
    forall k | 0 <= k < |bs| && (k < i || end <= k) ensures KeptHeader(m, m', bs, end, k, false, last) {
      assert HeaderOf(m, bs, k);
    }
    SpliceRepresents(m, m', bs, i, end, parts, false);
    SpliceKeepsPrevs(m, m', bs, i, end, parts, false, exact);
  }

  lemma MergeNextRewrites(m: Memory, m': Memory, bs: seq<Block>, i: nat, updates: bool, lo: int, hi: int)
    requires Tiled(bs, lo, hi) && lo > NULL && Represents(m, bs) && GoodPrevs(m, bs, updates)
    requires 0 < i && i + 1 < |bs| && bs[i + 1].free
    requires bs[i].addr in m && bs[i + 1].addr in m && m' == AbsorbMemory(m, bs[i].addr, bs[i + 1].addr, updates)
    ensures Represents(m', MergeNext(bs, i)) && GoodPrevs(m', MergeNext(bs, i), updates)
  {
    var parts, end := [bs[i].(size := bs[i].size + bs[i + 1].size + HEADER)], i + 2;
    var last := LastAddr(parts);
    assert HeaderOf(m, bs, i) && HeaderOf(m, bs, i + 1);
    TiledDistinct(bs, lo, hi, i);
    TiledInside(bs, lo, hi, i);
    if end < |bs| { TiledOrdered(bs, lo, hi, i, end); }
    forall k | 0 <= k < |bs| && (k < i || end <= k) ensures KeptHeader(m, m', bs, end, k, updates, last) {
      assert HeaderOf(m, bs, k);
      TiledInside(bs, lo, hi, k);
      TiledDistinct(bs, lo, hi, k);
    }
    SpliceRepresents(m, m', bs, i, end, parts, updates);
    SpliceKeepsPrevs(m, m', bs, i, end, parts, updates, updates);
  }

  lemma InitialUsedSize(lo: int, size: nat)
    requires size >= 2 * HEADER
    ensures UsedSize(InitialBlocks(lo, size)) == 0
  {
    var bs := InitialBlocks(lo, size);
    assert bs == [bs[0]] + [bs[1]];
    UsedSizeConcat([bs[0]], [bs[1]]);
  }

  lemma NothingStartsInside(bs: seq<Block>, lo: int, hi: int, i: nat, a: int)
    requires Tiled(bs, lo, hi) && i < |bs| && bs[i].addr < a < End(bs[i])
    ensures forall k | 0 <= k < |bs| :: bs[k].addr != a
  {
    forall k | 0 <= k < |bs| ensures bs[k].addr != a {
      if k < i { TiledOrdered(bs, lo, hi, k, i); } else if k > i { TiledOrdered(bs, lo, hi, i, k); }
    }
  }
}
