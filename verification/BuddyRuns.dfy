/** Every run of allocMemory and freeMemory calls on one arena of the buddy allocator. */
module BuddyRuns {
  import opened Options
  import opened BuddyRounding
  import opened BuddyTree

  datatype Op = AllocOp(size: nat) | FreeOp(address: int)

  /** The allocator's tree, and what its clients remember: address to the size they asked for. */
  datatype State = State(tree: Tree, ledger: map<int, nat>)

  function Initial(size: nat): State { State(Leaf(size, false), map[]) }

  function Step(s: State, a: int, op: Op): (r: State)
    requires WellFormed(s.tree) && s.tree.size < 0x8000_0000
    ensures WellFormed(r.tree) && r.tree.size == s.tree.size
  {
    match op
    case AllocOp(size) =>
      var (tree, p) := GenericAlloc(s.tree, a, size);
      State(tree, if p.Some? then s.ledger[p.value := size] else s.ledger)
    case FreeOp(p) =>
      State(Free(s.tree, a, p), s.ledger - {p})
  }

  function Run(s: State, a: int, ops: seq<Op>): (r: State)
    requires WellFormed(s.tree) && s.tree.size < 0x8000_0000
    ensures WellFormed(r.tree) && r.tree.size == s.tree.size
    decreases |ops|
  {
    if ops == [] then s else Run(Step(s, a, ops[0]), a, ops[1..])
  }

  /** The clients' books agree with the tree, and every block is as large as was asked. */
  ghost predicate Agrees(s: State, a: int) {
    && s.ledger.Keys == Blocks(s.tree, a).Keys
    && forall p | p in s.ledger :: s.ledger[p] <= Blocks(s.tree, a)[p]
  }

  /** Outstanding blocks lie inside the arena whose root is at a, apart from each other. */
  ghost predicate SafeLedger(ledger: map<int, nat>, a: int, size: nat) {
    && (forall p | p in ledger :: a + HEADER <= p && p + ledger[p] <= a + HEADER + size)
    && (forall p, q | p in ledger && q in ledger && p < q :: p + ledger[p] + HEADER <= q)
  }

  lemma StepAgrees(s: State, a: int, op: Op)
    requires WellFormed(s.tree) && s.tree.size < 0x8000_0000 && Agrees(s, a)
    ensures Agrees(Step(s, a, op), a)
  {
    match op
    case AllocOp(size) =>
      if !(size >= BLOCK && size > s.tree.size) {
        RoundUpIsPower(size);
        AllocAddsOneBlock(s.tree, a, RoundUp(size));
      }
    case FreeOp(p) =>
      FreeRemovesOneBlock(s.tree, a, p);
  }

  lemma {:induction false} RunAgrees(s: State, a: int, ops: seq<Op>)
    requires WellFormed(s.tree) && s.tree.size < 0x8000_0000 && Agrees(s, a)
    ensures Agrees(Run(s, a, ops), a)
    decreases |ops|
  {
    if ops != [] {
      StepAgrees(s, a, ops[0]);
      RunAgrees(Step(s, a, ops[0]), a, ops[1..]);
    }
  }

  lemma AgreementIsSafe(s: State, a: int)
    requires WellFormed(s.tree) && Agrees(s, a)
    ensures SafeLedger(s.ledger, a, s.tree.size)
  {
    BlocksInside(s.tree, a);
    forall p, q | p in s.ledger && q in s.ledger && p < q
      ensures p + s.ledger[p] + HEADER <= q
    {
      BlocksDisjoint(s.tree, a, p, q);
    }
  }

  /** Safety over every run, whatever is requested and whatever addresses are freed. */
  lemma {:induction false} EveryRunIsSafe(size: nat, a: int, ops: seq<Op>)
    requires size < 0x8000_0000
    ensures var s := Run(Initial(size), a, ops);
      Agrees(s, a) && SafeLedger(s.ledger, a, size)
  {
    RunAgrees(Initial(size), a, ops);
    AgreementIsSafe(Run(Initial(size), a, ops), a);
  }

  // ---------- Completeness and coalescing over runs ----------

  /** Every power of two from 0x1000 up halves down from the root without overshooting. */
  ghost predicate GoodArena(size: nat) {
    forall n: nat | n >= 12 :: Pow2(n) >= BLOCK && GoodChain(size, Pow2(n))
  }

  lemma RequestsAreGood(size: nat, request: nat)
    requires GoodArena(size) && (request < BLOCK || request < 0x8000_0000)
    ensures RoundUp(request) >= BLOCK && GoodChain(size, RoundUp(request))
  {
    RoundUpIsPower(request);
  }

  /** On a good arena every run keeps the tree coalesced. */
  lemma {:induction false} RunKeepsCoalesced(s: State, a: int, ops: seq<Op>)
    requires WellFormed(s.tree) && s.tree.size < 0x8000_0000
    requires GoodArena(s.tree.size) && Coalesced(s.tree)
    ensures Coalesced(Run(s, a, ops).tree)
    decreases |ops|
  {
    if ops != [] {
      match ops[0] {
        case AllocOp(size) =>
          if !(size >= BLOCK && size > s.tree.size) {
            RequestsAreGood(s.tree.size, size);
            AllocKeepsCoalesced(s.tree, a, RoundUp(size));
          }
        case FreeOp(p) => FreeKeepsCoalesced(s.tree, a, p);
      }
      RunKeepsCoalesced(Step(s, a, ops[0]), a, ops[1..]);
    }
  }

  /** After any run on a good arena, a request is refused exactly when it exceeds every EMPTY leaf. */
  lemma EveryRunIsComplete(size: nat, a: int, ops: seq<Op>, request: nat)
    requires size < 0x8000_0000 && GoodArena(size)
    requires request < BLOCK || request <= size
    ensures var tree := Run(Initial(size), a, ops).tree;
      GenericAlloc(tree, a, request).1.None? <==> !HasFittingLeaf(tree, RoundUp(request))
  {
    RequestsAreGood(size, request);
    AllocIsComplete(Run(Initial(size), a, ops).tree, a, RoundUp(request));
  }

  function Frees(addresses: seq<int>): seq<Op> {
    seq(|addresses|, i requires 0 <= i < |addresses| => FreeOp(addresses[i]))
  }

  lemma {:induction false} FreesForget(s: State, a: int, addresses: seq<int>)
    requires WellFormed(s.tree) && s.tree.size < 0x8000_0000
    ensures Run(s, a, Frees(addresses)).ledger == s.ledger - (set p | p in addresses)
    decreases |addresses|
  {
    if addresses == [] {
    } else {
      assert Frees(addresses)[1..] == Frees(addresses[1..]);
      FreesForget(Step(s, a, FreeOp(addresses[0])), a, addresses[1..]);
    }
  }

  /** After any run on a good arena, freeing all outstanding blocks in any order restores the single EMPTY root. */
  lemma FreeingEverythingRestoresTheRoot(size: nat, a: int, ops: seq<Op>, s: State, addresses: seq<int>)
    requires size < 0x8000_0000 && GoodArena(size)
    requires s == Run(Initial(size), a, ops)
    requires s.ledger.Keys <= (set p | p in addresses)
    ensures Run(s, a, Frees(addresses)).tree == Leaf(size, false)
  {
    var s' := Run(s, a, Frees(addresses));
    RunAgrees(Initial(size), a, ops);
    RunAgrees(s, a, Frees(addresses));
    FreesForget(s, a, addresses);
    assert s'.ledger.Keys == s.ledger.Keys - (set p | p in addresses);
    assert s'.ledger.Keys == {};
    RunKeepsCoalesced(Initial(size), a, ops);
    RunKeepsCoalesced(s, a, Frees(addresses));
    assert Blocks(s'.tree, a) == map[] by { assert Blocks(s'.tree, a).Keys == {}; }
    NoBlocksMeansSingleRoot(s'.tree, a);
  }

  // ---------- The two arenas of the kernel ----------

  /** initMemory on the kernel arena: KERNEL_MEMORY_SIZE less one header. */
  const KERNEL_ROOT: nat := 0x14_0000 - HEADER

  /** initMemory on the userland arena: 64 pages less the 8 bytes under the stack base, less one header. */
  const USERLAND_ROOT: nat := 64 * 0x1000 - 8 - HEADER

  ghost predicate BlockPower(r: nat) {
    r in {0x1000, 0x2000, 0x4000, 0x8000, 0x1_0000, 0x2_0000, 0x4_0000, 0x8_0000} || r >= 0x10_0000
  }

  lemma PowersFromBlock(n: nat)
    requires n >= 12
    ensures Pow2(n) >= BLOCK && BlockPower(Pow2(n))
  {
    Pow2Of31();
    Pow2Monotone(12, n);
    Pow2Monotone(20, n);
    Pow2Add(12, 4);
    Pow2Add(16, 4);
    assert Pow2(1) == 2 && Pow2(2) == 4 && Pow2(3) == 8 && Pow2(4) == 16;
    if n < 16 { Pow2Add(12, n - 12); } else if n < 20 { Pow2Add(16, n - 16); }
  }

  lemma KernelChain(r: nat)
    requires BlockPower(r)
    ensures GoodChain(KERNEL_ROOT, r)
  {
    assert GoodChain(5056, r);
    assert GoodChain(10176, r);
    assert GoodChain(20416, r);
    assert GoodChain(40897, r);
    assert GoodChain(81858, r);
    assert GoodChain(163780, r);
    assert GoodChain(327624, r);
    assert GoodChain(655312, r);
  }

  lemma UserlandChain(r: nat)
    requires BlockPower(r)
    ensures GoodChain(USERLAND_ROOT, r)
  {
    assert GoodChain(8128, r);
    assert GoodChain(16321, r);
    assert GoodChain(32707, r);
    assert GoodChain(65478, r);
    assert GoodChain(131020, r);
  }

  /** Neither arena ever splits in vain, so the results above hold for both without further condition. */
  lemma BothArenasAreGood()
    ensures GoodArena(KERNEL_ROOT) && GoodArena(USERLAND_ROOT)
  {
    forall n: nat | n >= 12
      ensures Pow2(n) >= BLOCK && GoodChain(KERNEL_ROOT, Pow2(n)) && GoodChain(USERLAND_ROOT, Pow2(n))
    {
      PowersFromBlock(n);
      KernelChain(Pow2(n));
      UserlandChain(Pow2(n));
    }
  }
}
