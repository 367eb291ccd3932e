/**
  Every run of allocations and frees over the free list, once the successor's `prev` is kept up to
  date: then a freed block merges with both free neighbours.
 */
module FreeListRuns {
  import opened Options
  import opened FreeListBlocks

  /** The allocated blocks, the root header among them. */
  ghost function Live(bs: seq<Block>): set<Block> { set b | b in bs && !b.free }

  function Payload(b: Block): int { b.addr + HEADER }

  lemma TiledDistinct(bs: seq<Block>, lo: int, hi: int, i: nat)
    requires Tiled(bs, lo, hi) && i < |bs|
    ensures forall k | 0 <= k < |bs| && k != i :: bs[k].addr != bs[i].addr
  {
    forall k | 0 <= k < |bs| && k != i ensures bs[k].addr != bs[i].addr {
      if k < i { TiledOrdered(bs, lo, hi, k, i); } else { TiledOrdered(bs, lo, hi, i, k); }
    }
  }

  /** What is in a sequence after replacing part of it. */
  lemma InSplice(bs: seq<Block>, i: nat, n: nat, parts: seq<Block>, b: Block)
    requires i + n <= |bs|
    ensures b in Splice(bs, i, n, parts) <==> b in bs[..i] || b in parts || b in bs[i + n..]
    ensures b in bs <==> b in bs[..i] || b in bs[i..i + n] || b in bs[i + n..]
  {
    assert bs == bs[..i] + bs[i..i + n] + bs[i + n..];
  }

  lemma AllocAtAddsOneBlock(bs: seq<Block>, i: nat, need: nat)
    requires i < |bs| && Fits(bs[i], need) && need >= HEADER
    ensures Live(AllocAt(bs, i, need)) == Live(bs) + {Taken(bs[i], need)[0]}
  {
    var r, parts := AllocAt(bs, i, need), Taken(bs[i], need);
    assert bs[i..i + 1] == [bs[i]];
    forall b ensures b in Live(r) <==> b in Live(bs) || b == parts[0] {
      InSplice(bs, i, 1, parts, b);
    }
  }

  lemma {:induction false} MergeNextChangesNoBlock(bs: seq<Block>, i: nat)
    requires i < |bs| && bs[i].free
    ensures Live(MergeNext(bs, i)) == Live(bs)
  {
    if i + 1 < |bs| && bs[i + 1].free {
      var parts := [bs[i].(size := bs[i].size + bs[i + 1].size + HEADER)];
      assert bs[i..i + 2] == [bs[i], bs[i + 1]];
      forall b ensures b in Live(MergeNext(bs, i)) <==> b in Live(bs) {
        InSplice(bs, i, 2, parts, b);
      }
    }
  }

  lemma SetFreeRemovesOneBlock(bs: seq<Block>, i: nat, lo: int, hi: int)
    requires i < |bs| && Tiled(bs, lo, hi) && !bs[i].free
    ensures Live(SetFree(bs, i)) == Live(bs) - {bs[i]}
  {
    TiledDistinct(bs, lo, hi, i);
    assert bs[i..i + 1] == [bs[i]];
    assert bs[i] !in bs[..i] && bs[i] !in bs[i + 1..];
    forall b ensures b in Live(SetFree(bs, i)) <==> b in Live(bs) && b != bs[i] {
      InSplice(bs, i, 1, [bs[i].(free := true)], b);
    }
  }

  lemma FreeAtRemovesOneBlock(bs: seq<Block>, i: nat, mergePrev: bool, lo: int, hi: int)
    requires 0 < i < |bs| && Tiled(bs, lo, hi) && !bs[i].free
    ensures Live(FreeAt(bs, i, mergePrev)) == Live(bs) - {bs[i]}
  {
    var freed := SetFree(bs, i);
    SetFreeRemovesOneBlock(bs, i, lo, hi);
    assert freed[i + 0].free;
    MergeNextChangesNoBlock(freed, i);
    if mergePrev && bs[i - 1].free {
      MergeNextChangesNoBlock(MergeNext(freed, i), i - 1);
    }
  }

  // ---------- Runs ----------

  datatype Op = AllocOp(blockSize: nat, request: nat) | FreeOp(address: int)

  /** The block list, and what the clients remember: address to the size they asked for. */
  datatype State = State(blocks: seq<Block>, ledger: map<int, nat>)

  /** initMemory: the root header, and everything behind it free. */
  function InitialBlocks(lo: int, size: nat): seq<Block>
    requires size >= 2 * HEADER
  {
    [Block(lo, 0, false), Block(lo + HEADER, size - 2 * HEADER, true)]
  }

  /** genericAllocMemory: first fit after the root header. */
  function AllocFirst(bs: seq<Block>, blockSize: nat, request: nat): (r: (seq<Block>, Option<int>))
    requires |bs| > 1 && blockSize > 0
  {
    TakesEnough(blockSize, request);
    var need := BytesToTake(blockSize, request);
    match FirstFit(bs, need, 1)
    case None => (bs, None)
    case Some(i) => (AllocAt(bs, i, need), Some(Payload(bs[i])))
  }

  /** The allocated block whose payload is at the address. */
  function FindBlock(bs: seq<Block>, address: int, i: nat): (r: Option<nat>)
    requires i <= |bs|
    ensures r.Some? ==> i <= r.value < |bs| && !bs[r.value].free && Payload(bs[r.value]) == address
    ensures r.None? ==> forall k | i <= k < |bs| && !bs[k].free :: Payload(bs[k]) != address
    decreases |bs| - i
  {
    if i == |bs| then None
    else if !bs[i].free && Payload(bs[i]) == address then Some(i)
    else FindBlock(bs, address, i + 1)
  }

  /** A client frees only what it holds. */
  function Step(s: State, op: Op): State
    requires |s.blocks| > 1
  {
    match op
    case AllocOp(blockSize, request) =>
      if blockSize == 0 then s
      else
        var (blocks, p) := AllocFirst(s.blocks, blockSize, request);
        State(blocks, if p.Some? then s.ledger[p.value := request] else s.ledger)
    case FreeOp(p) =>
      if p !in s.ledger then s
      else match FindBlock(s.blocks, p, 1)
        case None => s
        case Some(i) => State(FreeAt(s.blocks, i, true), s.ledger - {p})
  }

  function Run(s: State, ops: seq<Op>): State
    decreases |ops|
  {
    if ops == [] || |s.blocks| <= 1 then s else Run(Step(s, ops[0]), ops[1..])
  }

  ghost predicate Shape(bs: seq<Block>, lo: int, hi: int) {
    Tiled(bs, lo, hi) && NoAdjacentFree(bs) && |bs| > 1 && bs[0] == Block(lo, 0, false)
  }

  /** The clients hold exactly the allocated blocks behind the root header, none smaller than they asked. */
  ghost predicate Books(ledger: map<int, nat>, live: set<Block>, lo: int) {
    && (forall b | b in live && b.addr != lo :: Payload(b) in ledger && ledger[Payload(b)] <= b.size)
    && (forall p | p in ledger :: exists b | b in live :: b.addr != lo && Payload(b) == p)
  }

  ghost predicate Good(s: State, lo: int, hi: int) {
    Shape(s.blocks, lo, hi) && Books(s.ledger, Live(s.blocks), lo)
  }

  lemma AllocStepIsGood(s: State, lo: int, hi: int, blockSize: nat, request: nat)
    requires Good(s, lo, hi) && blockSize > 0
    ensures Good(Step(s, AllocOp(blockSize, request)), lo, hi)
  {
    TakesEnough(blockSize, request);
    var need := BytesToTake(blockSize, request);
    match FirstFit(s.blocks, need, 1)
    case None =>
    case Some(i) =>
      AllocAtKeepsShape(s.blocks, lo, hi, i, need);
      AllocAtKeepsBooks(s, lo, hi, i, need, request);
  }

  lemma AllocAtKeepsShape(bs: seq<Block>, lo: int, hi: int, i: nat, need: nat)
    requires Shape(bs, lo, hi) && 0 < i < |bs| && Fits(bs[i], need) && need >= HEADER
    ensures Shape(AllocAt(bs, i, need), lo, hi)
  {
    AllocAtKeepsTiling(bs, i, need, lo, hi);
    AllocAtKeepsNoAdjacentFree(bs, i, need);
    assert AllocAt(bs, i, need)[0] == bs[0];
  }

  lemma BooksAfterAlloc(ledger: map<int, nat>, live: set<Block>, lo: int, b: Block, request: nat)
    requires Books(ledger, live, lo) && b.addr != lo && request <= b.size
    requires forall c | c in live :: Payload(c) != Payload(b)
    ensures Books(ledger[Payload(b) := request], live + {b}, lo)
  {
    var ledger', live' := ledger[Payload(b) := request], live + {b};
    forall q | q in ledger' ensures exists c | c in live' :: c.addr != lo && Payload(c) == q {
      if q == Payload(b) {
        assert b in live';
      } else {
        var c :| c in live && c.addr != lo && Payload(c) == q;
        assert c in live';
      }
    }
  }

  lemma AllocAtKeepsBooks(s: State, lo: int, hi: int, i: nat, need: nat, request: nat)
    requires Good(s, lo, hi) && 0 < i < |s.blocks| && Fits(s.blocks[i], need) && need >= HEADER + request
    ensures Books(s.ledger[Payload(s.blocks[i]) := request], Live(AllocAt(s.blocks, i, need)), lo)
  {
    AllocAtAddsOneBlock(s.blocks, i, need);
    NobodyLivesAtFree(s.blocks, lo, hi, i);
    var b := TakenFirst(s.blocks[i], need);
    BooksAfterAlloc(s.ledger, Live(s.blocks), lo, b, request);
  }

  lemma TakenFirst(b: Block, need: nat) returns (first: Block)
    requires Fits(b, need) && need >= HEADER
    ensures first == Taken(b, need)[0] && first.addr == b.addr && first.size >= need - HEADER
  {
    first := Taken(b, need)[0];
  }

  lemma NobodyLivesAtFree(bs: seq<Block>, lo: int, hi: int, i: nat)
    requires Tiled(bs, lo, hi) && 0 < i < |bs| && bs[i].free
    ensures forall c | c in Live(bs) :: Payload(c) != Payload(bs[i])
    ensures bs[i].addr != lo
  {
    TiledDistinct(bs, lo, hi, i);
    assert bs[0].addr != bs[i].addr;
  }

  lemma FreeStepIsGood(s: State, lo: int, hi: int, p: int)
    requires Good(s, lo, hi)
    ensures Good(Step(s, FreeOp(p)), lo, hi)
    ensures p in s.ledger ==> Step(s, FreeOp(p)).ledger == s.ledger - {p}
  {
    if p in s.ledger {
      var b :| b in Live(s.blocks) && b.addr != lo && Payload(b) == p;
      var k :| 0 <= k < |s.blocks| && s.blocks[k] == b;
      var i := FindBlock(s.blocks, p, 1).value;
      FreeAtKeepsShape(s.blocks, lo, hi, i);
      FreeAtKeepsBooks(s, lo, hi, i);
    }
  }

  lemma FreeAtKeepsShape(bs: seq<Block>, lo: int, hi: int, i: nat)
    requires Shape(bs, lo, hi) && 0 < i < |bs| && !bs[i].free
    ensures Shape(FreeAt(bs, i, true), lo, hi)
  {
    FreeAtKeepsTiling(bs, i, true, lo, hi);
    FreeAtKeepsNoAdjacentFree(bs, i);
    FreeAtKeepsTheRoot(bs, i, true);
  }

  lemma FreeAtKeepsTheRoot(bs: seq<Block>, i: nat, mergePrev: bool)
    requires 0 < i < |bs| && !bs[0].free
    ensures |FreeAt(bs, i, mergePrev)| > 1 && FreeAt(bs, i, mergePrev)[0] == bs[0]
  {
    var merged := MergeNext(SetFree(bs, i), i);
    assert merged[0] == bs[0];
  }

  lemma FreeAtKeepsBooks(s: State, lo: int, hi: int, i: nat)
    requires Good(s, lo, hi) && 0 < i < |s.blocks| && !s.blocks[i].free
    ensures Books(s.ledger - {Payload(s.blocks[i])}, Live(FreeAt(s.blocks, i, true)), lo)
  {
    var p := Payload(s.blocks[i]);
    FreeAtRemovesOneBlock(s.blocks, i, true, lo, hi);
    TiledDistinct(s.blocks, lo, hi, i);
    var ledger, live := s.ledger - {p}, Live(s.blocks) - {s.blocks[i]};
    assert forall c | c in live :: Payload(c) != p;
    forall q | q in ledger ensures exists c | c in live :: c.addr != lo && Payload(c) == q {
      var c :| c in Live(s.blocks) && c.addr != lo && Payload(c) == q;
      assert c in live;
    }
  }

  lemma StepIsGood(s: State, lo: int, hi: int, op: Op)
    requires Good(s, lo, hi)
    ensures Good(Step(s, op), lo, hi)
  {
    match op
    case AllocOp(blockSize, request) => if blockSize > 0 { AllocStepIsGood(s, lo, hi, blockSize, request); }
    case FreeOp(p) => FreeStepIsGood(s, lo, hi, p);
  }

  lemma {:induction false} RunIsGood(s: State, lo: int, hi: int, ops: seq<Op>)
    requires Good(s, lo, hi)
    ensures Good(Run(s, ops), lo, hi)
    decreases |ops|
  {
    if ops != [] {
      StepIsGood(s, lo, hi, ops[0]);
      RunIsGood(Step(s, ops[0]), lo, hi, ops[1..]);
    }
  }

  /** What clients hold is inside the arena, as large as they asked, and pairwise disjoint. */
  ghost predicate SafeLedger(ledger: map<int, nat>, lo: int, hi: int) {
    && (forall p | p in ledger :: lo + HEADER <= p && p + ledger[p] <= hi)
    && (forall p, q | p in ledger && q in ledger && p < q :: p + ledger[p] + HEADER <= q)
  }

  lemma GoodIsSafe(s: State, lo: int, hi: int)
    requires Good(s, lo, hi)
    ensures SafeLedger(s.ledger, lo, hi)
  {
    forall p | p in s.ledger
      ensures exists i :: 0 < i < |s.blocks| && Payload(s.blocks[i]) == p && s.ledger[p] <= s.blocks[i].size
    {
      var b :| b in Live(s.blocks) && b.addr != lo && Payload(b) == p;
      var i :| 0 <= i < |s.blocks| && s.blocks[i] == b;
    }
    forall p | p in s.ledger ensures lo + HEADER <= p && p + s.ledger[p] <= hi {
      var i :| 0 < i < |s.blocks| && Payload(s.blocks[i]) == p && s.ledger[p] <= s.blocks[i].size;
      TiledInside(s.blocks, lo, hi, i);
    }
    forall p, q | p in s.ledger && q in s.ledger && p < q ensures p + s.ledger[p] + HEADER <= q {
      var i :| 0 < i < |s.blocks| && Payload(s.blocks[i]) == p && s.ledger[p] <= s.blocks[i].size;
      var j :| 0 < j < |s.blocks| && Payload(s.blocks[j]) == q && s.ledger[q] <= s.blocks[j].size;
      if i < j { TiledOrdered(s.blocks, lo, hi, i, j); } else if j < i { TiledOrdered(s.blocks, lo, hi, j, i); }
    }
  }

  lemma InitialIsGood(lo: int, size: nat)
    requires size >= 2 * HEADER
    ensures Good(State(InitialBlocks(lo, size), map[]), lo, lo + size)
  {
  }

  /**
    Over every run from initMemory the blocks tile the arena with no two free neighbours, and what
    the clients hold is safe.
   */
  lemma {:induction false} EveryRunIsSafe(lo: int, size: nat, ops: seq<Op>)
    requires size >= 2 * HEADER
    ensures var s := Run(State(InitialBlocks(lo, size), map[]), ops);
      && Tiled(s.blocks, lo, lo + size) && NoAdjacentFree(s.blocks)
      && SafeLedger(s.ledger, lo, lo + size)
  {
    InitialIsGood(lo, size);
    RunIsGood(State(InitialBlocks(lo, size), map[]), lo, lo + size, ops);
    GoodIsSafe(Run(State(InitialBlocks(lo, size), map[]), ops), lo, lo + size);
  }

  /** When a run has returned every block, the arena is again one free block behind the root header. */
  lemma ReturningEverythingRestoresTheArena(lo: int, size: nat, ops: seq<Op>, s: State)
    requires size >= 2 * HEADER && s == Run(State(InitialBlocks(lo, size), map[]), ops) && s.ledger == map[]
    ensures s.blocks == InitialBlocks(lo, size)
  {
    InitialIsGood(lo, size);
    RunIsGood(State(InitialBlocks(lo, size), map[]), lo, lo + size, ops);
    TiledDistinct(s.blocks, lo, lo + size, 0);
    assert forall b | b in Live(s.blocks) :: b.addr == lo;
    forall i | 0 < i < |s.blocks| ensures s.blocks[i].free {
      var b := s.blocks[i];
      assert b in Live(s.blocks) <==> !b.free;
    }
    AllFreeIsOneBlock(s.blocks, lo, lo + size);
  }
}
