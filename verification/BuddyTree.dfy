/**
  The buddy allocator of Kernel/memoryManagement/buddyMemoryManager.c, seen as a tree.

  A node is a 32-byte header followed by its payload.  A split carves both children, headers
  included, out of the payload of their parent, so sizes follow s -> s/2 - 32 and are not powers of two.
  Addresses are integers; a node "at a" has its header at a and its payload at a + 32.
 */
module BuddyTree {
  import opened Options
  import opened BuddyRounding

  const HEADER: nat := 32
  const BLOCK: nat := 0x1000

  datatype Status = EMPTY | PARTIAL | FULL

  datatype Tree =
    | Leaf(size: nat, full: bool)
    | Split(size: nat, summary: Status, left: Tree, right: Tree)
  {
    function Status(): Status {
      match this
      case Leaf(_, full) => if full then FULL else EMPTY
      case Split(_, summary, _, _) => summary
    }
  }

  /** The payload size of both children of a node of size s. */
  function ChildSize(s: nat): int { s / 2 - HEADER }

  function RightAddress(a: int, size: nat): int { a + HEADER + size / 2 }

  /** endRecursiveCall: the status of a node from the statuses of its children. */
  function Summary(left: Status, right: Status): Status {
    if left == FULL && right == FULL then FULL
    else if left == FULL || right == FULL || left == PARTIAL || right == PARTIAL then PARTIAL
    else EMPTY
  }

  function Join(size: nat, left: Tree, right: Tree): Tree {
    Split(size, Summary(left.Status(), right.Status()), left, right)
  }

  /** Sizes halve exactly as setDescendants says, and every inner status summarises its children. */
  ghost predicate WellFormed(t: Tree) {
    t.Split? ==>
      && t.left.size == ChildSize(t.size) == t.right.size
      && t.summary == Summary(t.left.Status(), t.right.Status())
      && WellFormed(t.left) && WellFormed(t.right)
  }

  /** No node is EMPTY and still has children. */
  ghost predicate Coalesced(t: Tree) {
    t.Split? ==> t.summary != EMPTY && Coalesced(t.left) && Coalesced(t.right)
  }

  // ---------- The two operations ----------

  /** genericAllocMemoryRec on the node at a: the new tree, and the payload address handed out. */
  function Alloc(t: Tree, a: int, request: nat): (r: (Tree, Option<int>))
    requires WellFormed(t) && request >= BLOCK
    ensures r.0.size == t.size && WellFormed(r.0)
    ensures r.1.Some? ==> r.1.value >= a + HEADER
    decreases t.size
  {
    if t.Status() == FULL then (t, None)
    else match t
      case Split(size, _, left, right) =>
        var (left', p) := Alloc(left, a + HEADER, request);
        if p.Some? then (Join(size, left', right), p)
        else
          var (right', q) := Alloc(right, RightAddress(a, size), request);
          (Join(size, left', right'), q)
      case Leaf(size, _) =>
        if request > size then (t, None)
        else if size / 2 >= request then
          var child := Leaf(ChildSize(size), false);
          var (left', p) := Alloc(child, a + HEADER, request);
          (Join(size, left', child), p)
        else (Leaf(size, true), Some(a + HEADER))
  }

  /** genericFreeRec on the node at a, for any address p. */
  function Free(t: Tree, a: int, p: int): (r: Tree)
    requires WellFormed(t)
    ensures r.size == t.size && WellFormed(r)
    decreases t, 1
  {
    match t
    case Split(size, _, left, right) =>
      var joined := FreedJoin(t, a, p);
      if joined.summary == EMPTY then Leaf(size, false) else joined
    case Leaf(size, full) =>
      if full && a + HEADER == p then Leaf(size, false) else t
  }

  /** The node at a after the free has reached one of its children, before it may coalesce. */
  function FreedJoin(t: Tree, a: int, p: int): (r: Tree)
    requires WellFormed(t) && t.Split?
    ensures r.Split? && r.size == t.size && WellFormed(r)
    decreases t, 0
  {
    if RightAddress(a, t.size) + HEADER > p then Join(t.size, Free(t.left, a + HEADER, p), t.right)
    else Join(t.size, t.left, Free(t.right, RightAddress(a, t.size), p))
  }

  // ---------- Outstanding blocks ----------

  /** The blocks handed out and not yet freed: payload address to payload size. */
  ghost function Blocks(t: Tree, a: int): map<int, nat> {
    match t
    case Leaf(size, full) => if full then map[a + HEADER := size] else map[]
    case Split(size, _, left, right) =>
      Blocks(left, a + HEADER) + Blocks(right, RightAddress(a, size))
  }

  /** Every block, with its header, lies inside the node it was cut from. */
  lemma {:induction false} BlocksInside(t: Tree, a: int)
    requires WellFormed(t)
    ensures forall p | p in Blocks(t, a) ::
      a + HEADER <= p && p + Blocks(t, a)[p] <= a + HEADER + t.size
  {
    if t.Split? {
      BlocksInside(t.left, a + HEADER);
      BlocksInside(t.right, RightAddress(a, t.size));
    }
  }

  /** Two outstanding blocks never overlap; there is room for the header of the upper one between them. */
  lemma {:induction false} BlocksDisjoint(t: Tree, a: int, p: int, q: int)
    requires WellFormed(t) && p in Blocks(t, a) && q in Blocks(t, a) && p < q
    ensures p + Blocks(t, a)[p] + HEADER <= q
  {
    if t.Split? {
      BlocksInside(t.left, a + HEADER);
      BlocksInside(t.right, RightAddress(a, t.size));
      if q in Blocks(t.left, a + HEADER) {
        BlocksDisjoint(t.left, a + HEADER, p, q);
      } else if p in Blocks(t.right, RightAddress(a, t.size)) {
        BlocksDisjoint(t.right, RightAddress(a, t.size), p, q);
      }
    }
  }

  /** A node is EMPTY exactly when nothing below it is handed out. */
  lemma {:induction false} EmptyMeansNoBlocks(t: Tree, a: int)
    requires WellFormed(t)
    ensures t.Status() == EMPTY <==> Blocks(t, a) == map[]
  {
    if t.Split? {
      EmptyMeansNoBlocks(t.left, a + HEADER);
      EmptyMeansNoBlocks(t.right, RightAddress(a, t.size));
      var L, R := Blocks(t.left, a + HEADER), Blocks(t.right, RightAddress(a, t.size));
      assert (L + R).Keys == L.Keys + R.Keys;
    } else if t.full {
      assert a + HEADER in Blocks(t, a);
    }
  }

  /** From before to after, the allocator handed out the block p, and only that. */
  ghost predicate Granted(before: map<int, nat>, p: Option<int>, after: map<int, nat>, request: nat) {
    match p
    case None => after == before
    case Some(p) =>
      && p !in before && p in after
      && request <= after[p] < 2 * request
      && after == before[p := after[p]]
  }

  lemma GrantedOnOneSide(L: map<int, nat>, R: map<int, nat>, p: Option<int>, L': map<int, nat>, request: nat)
    requires Granted(L, p, L', request) && L'.Keys !! R.Keys
    ensures Granted(L + R, p, L' + R, request)
    ensures Granted(R + L, p, R + L', request)
  {
  }

  /** A request is answered with a new block of its size or up to twice that, or changes no block. */
  lemma {:induction false} AllocAddsOneBlock(t: Tree, a: int, request: nat)
    requires WellFormed(t) && request >= BLOCK
    ensures Granted(Blocks(t, a), Alloc(t, a, request).1, Blocks(Alloc(t, a, request).0, a), request)
    decreases t.size
  {
    if t.Status() == FULL {
    } else if t.Split? {
      AllocAddsInChildren(t, a, request);
    } else if t.size / 2 >= request {
      AllocAddsOneBlock(Leaf(ChildSize(t.size), false), a + HEADER, request);
    }
  }

  lemma {:induction false} AllocAddsInChildren(t: Tree, a: int, request: nat)
    requires WellFormed(t) && request >= BLOCK && t.Split? && t.Status() != FULL
    ensures Granted(Blocks(t, a), Alloc(t, a, request).1, Blocks(Alloc(t, a, request).0, a), request)
    decreases t.size, 0
  {
    var b := RightAddress(a, t.size);
    var L, R := Blocks(t.left, a + HEADER), Blocks(t.right, b);
    BlocksInside(t.left, a + HEADER);
    BlocksInside(t.right, b);
    AllocAddsOneBlock(t.left, a + HEADER, request);
    var (left, p) := Alloc(t.left, a + HEADER, request);
    var L' := Blocks(left, a + HEADER);
    BlocksInside(left, a + HEADER);
    assert forall q | q in L' :: q < b + HEADER;
    GrantedOnOneSide(L, R, p, L', request);
    if p.None? {
      AllocAddsOneBlock(t.right, b, request);
      var (right, q) := Alloc(t.right, b, request);
      BlocksInside(right, b);
      GrantedOnOneSide(R, L', q, Blocks(right, b), request);
    }
  }

  /** Freeing p removes the block issued at p, and for any other address removes nothing. */
  lemma {:induction false} FreeRemovesOneBlock(t: Tree, a: int, p: int)
    requires WellFormed(t)
    ensures Blocks(Free(t, a, p), a) == Blocks(t, a) - {p}
    decreases t, 1
  {
    if t.Split? {
      FreeRemovesInChild(t, a, p);
      EmptyMeansNoBlocks(FreedJoin(t, a, p), a);
    }
  }

  /** The address comparison of free: what was issued in one half is never looked for in the other. */
  lemma IssuedOnOneSide(t: Tree, a: int, p: int)
    requires WellFormed(t) && t.Split?
    ensures p < RightAddress(a, t.size) + HEADER ==> p !in Blocks(t.right, RightAddress(a, t.size))
    ensures p >= RightAddress(a, t.size) + HEADER ==> p !in Blocks(t.left, a + HEADER)
  {
    BlocksInside(t.left, a + HEADER);
    BlocksInside(t.right, RightAddress(a, t.size));
  }

  lemma RemoveFromUnion(L: map<int, nat>, R: map<int, nat>, p: int)
    ensures p !in R ==> (L + R) - {p} == (L - {p}) + R
    ensures p !in L ==> (L + R) - {p} == L + (R - {p})
  {
  }

  lemma {:induction false} FreeRemovesInChild(t: Tree, a: int, p: int)
    requires WellFormed(t) && t.Split?
    ensures Blocks(FreedJoin(t, a, p), a) == Blocks(t, a) - {p}
    decreases t, 0
  {
    var b := RightAddress(a, t.size);
    IssuedOnOneSide(t, a, p);
    RemoveFromUnion(Blocks(t.left, a + HEADER), Blocks(t.right, b), p);
    if b + HEADER > p {
      FreeRemovesOneBlock(t.left, a + HEADER, p);
    } else {
      FreeRemovesOneBlock(t.right, b, p);
    }
  }

  // ---------- Completeness ----------

  /** No size s on the halving chain from size has request <= s/2 < request + HEADER. */
  predicate GoodChain(size: nat, request: nat)
    requires request >= BLOCK
  {
    size / 2 >= request ==> ChildSize(size) >= request && GoodChain(ChildSize(size), request)
  }

  /** Some EMPTY leaf is at least as large as the request. */
  ghost predicate HasFittingLeaf(t: Tree, request: nat) {
    match t
    case Leaf(size, full) => !full && request <= size
    case Split(_, _, left, right) => HasFittingLeaf(left, request) || HasFittingLeaf(right, request)
  }

  /** Some EMPTY leaf is large enough and can be halved down to the request without overshooting. */
  ghost predicate HasUsableLeaf(t: Tree, request: nat)
    requires request >= BLOCK
  {
    match t
    case Leaf(size, full) => !full && request <= size && GoodChain(size, request)
    case Split(_, _, left, right) => HasUsableLeaf(left, request) || HasUsableLeaf(right, request)
  }

  lemma {:induction false} FullHasNoLeaf(t: Tree, request: nat)
    requires WellFormed(t) && t.Status() == FULL && request >= BLOCK
    ensures !HasFittingLeaf(t, request) && !HasUsableLeaf(t, request)
  {
    if t.Split? {
      FullHasNoLeaf(t.left, request);
      FullHasNoLeaf(t.right, request);
    }
  }

  /** Exactly when a request succeeds, for every tree and every request. */
  lemma {:induction false} AllocSucceedsIff(t: Tree, a: int, request: nat)
    requires WellFormed(t) && request >= BLOCK
    ensures Alloc(t, a, request).1.Some? <==> HasUsableLeaf(t, request)
    decreases t.size
  {
    if t.Status() == FULL {
      FullHasNoLeaf(t, request);
    } else if t.Split? {
      AllocSucceedsIff(t.left, a + HEADER, request);
      AllocSucceedsIff(t.right, RightAddress(a, t.size), request);
    } else if t.size / 2 >= request {
      AllocSucceedsIff(Leaf(ChildSize(t.size), false), a + HEADER, request);
    }
  }

  /** A node is FULL exactly when no leaf below it is EMPTY, so that PARTIAL means some are and some are not. */
  lemma {:induction false} FullIffNoEmptyLeaf(t: Tree)
    requires WellFormed(t)
    ensures t.Status() == FULL <==> !HasFittingLeaf(t, 0)
  {
    if t.Split? {
      FullIffNoEmptyLeaf(t.left);
      FullIffNoEmptyLeaf(t.right);
    }
  }

  /** The two children of a node fill its payload, but for the last byte of an odd one. */
  lemma ChildrenFillTheNode(a: int, size: nat)
    ensures a + 32 + 32 + ChildSize(size) == RightAddress(a, size)
    ensures RightAddress(a, size) + 32 + ChildSize(size) == a + 32 + size - size % 2
  {
  }

  // ---------- Which leaf is taken ----------

  /** An EMPTY leaf of that size has its header at x, and can serve the request. */
  ghost predicate UsableAt(t: Tree, a: int, request: nat, x: int, size: nat)
    requires request >= BLOCK
  {
    match t
    case Leaf(s, full) => !full && request <= s && GoodChain(s, request) && x == a && size == s
    case Split(s, _, left, right) =>
      UsableAt(left, a + 32, request, x, size) || UsableAt(right, a + 32 + s / 2, request, x, size)
  }

  lemma {:induction false} UsableInside(t: Tree, a: int, request: nat, x: int, size: nat)
    requires WellFormed(t) && request >= BLOCK && UsableAt(t, a, request, x, size)
    ensures a <= x && x + 32 + size <= a + 32 + t.size && HasUsableLeaf(t, request)
  {
    if t.Split? {
      if UsableAt(t.left, a + 32, request, x, size) {
        UsableInside(t.left, a + 32, request, x, size);
      } else {
        UsableInside(t.right, a + 32 + t.size / 2, request, x, size);
      }
    }
  }

  /** How often a leaf of that size is halved for the request. */
  function Halvings(size: nat, request: nat): nat
    requires request >= BLOCK
  {
    if size / 2 >= request then 1 + Halvings(size / 2 - 32, request) else 0
  }

  /** No usable leaf has a lower address. */
  ghost predicate IsLowest(t: Tree, a: int, request: nat, x: int)
    requires request >= BLOCK
  {
    forall y, s | UsableAt(t, a, request, y, s) :: x <= y
  }

  /**
    A granted block comes from the usable leaf with the lowest address, at its low end: one header further
    for every halving.
   */
  lemma {:induction false} AllocTakesTheLowest(t: Tree, a: int, request: nat) returns (x: int, size: nat)
    requires WellFormed(t) && request >= BLOCK && Alloc(t, a, request).1.Some?
    ensures UsableAt(t, a, request, x, size) && IsLowest(t, a, request, x)
    ensures Alloc(t, a, request).1.value == x + 32 * (Halvings(size, request) + 1)
    decreases t.size
  {
    AllocSucceedsIff(t, a, request);
    if t.Split? {
      x, size := LowestInChildren(t, a, request);
    } else {
      x, size := a, t.size;
      if t.size / 2 >= request {
        var x', s' := AllocTakesTheLowest(Leaf(ChildSize(t.size), false), a + 32, request);
      }
    }
  }

  lemma {:induction false} LowestInChildren(t: Tree, a: int, request: nat) returns (x: int, size: nat)
    requires WellFormed(t) && request >= BLOCK && t.Split? && Alloc(t, a, request).1.Some?
    ensures UsableAt(t, a, request, x, size) && IsLowest(t, a, request, x)
    ensures Alloc(t, a, request).1.value == x + 32 * (Halvings(size, request) + 1)
    decreases t.size, 0
  {
    AllocSucceedsIff(t.left, a + 32, request);
    if Alloc(t.left, a + 32, request).1.Some? {
      x, size := AllocTakesTheLowest(t.left, a + 32, request);
      UsableInside(t.left, a + 32, request, x, size);
      LowestOnTheLeft(t, a, request, x);
    } else {
      x, size := AllocTakesTheLowest(t.right, a + 32 + t.size / 2, request);
      LowestOnTheRight(t, a, request, x);
    }
  }

  lemma LowestOnTheLeft(t: Tree, a: int, request: nat, x: int)
    requires WellFormed(t) && request >= BLOCK && t.Split?
    requires IsLowest(t.left, a + 32, request, x) && x <= a + 32 + t.size / 2
    ensures IsLowest(t, a, request, x)
  {
    var b := a + 32 + t.size / 2;
    forall y, s | UsableAt(t, a, request, y, s) ensures x <= y {
      if UsableAt(t.right, b, request, y, s) {
        UsableInside(t.right, b, request, y, s);
      } else {
        assert UsableAt(t.left, a + 32, request, y, s);
      }
    }
  }

  lemma LowestOnTheRight(t: Tree, a: int, request: nat, x: int)
    requires WellFormed(t) && request >= BLOCK && t.Split?
    requires IsLowest(t.right, a + 32 + t.size / 2, request, x) && !HasUsableLeaf(t.left, request)
    ensures IsLowest(t, a, request, x)
  {
    forall y, s | UsableAt(t, a, request, y, s) ensures x <= y {
      if UsableAt(t.left, a + 32, request, y, s) {
        UsableInside(t.left, a + 32, request, y, s);
      } else {
        assert UsableAt(t.right, a + 32 + t.size / 2, request, y, s);
      }
    }
  }

  /** A request whose chain from the root is good fails exactly when no EMPTY leaf fits. */
  lemma AllocIsComplete(t: Tree, a: int, request: nat)
    requires WellFormed(t) && request >= BLOCK && GoodChain(t.size, request)
    ensures Alloc(t, a, request).1.None? <==> !HasFittingLeaf(t, request)
  {
    AllocSucceedsIff(t, a, request);
    UsableIffFitting(t, request);
  }

  lemma {:induction false} UsableIffFitting(t: Tree, request: nat)
    requires WellFormed(t) && request >= BLOCK
    requires GoodChain(t.size, request) || t.size < request
    ensures HasUsableLeaf(t, request) <==> HasFittingLeaf(t, request)
  {
    if t.Split? {
      UsableIffFitting(t.left, request);
      UsableIffFitting(t.right, request);
    }
  }

  /** A request that overshoots leaves an EMPTY node split; a good one never does. */
  lemma {:induction false} AllocKeepsCoalesced(t: Tree, a: int, request: nat)
    requires WellFormed(t) && request >= BLOCK && Coalesced(t)
    requires GoodChain(t.size, request) || t.size < request
    ensures var (t', p) := Alloc(t, a, request);
      && Coalesced(t')
      && (t.Status() != EMPTY || p.Some? ==> t'.Status() != EMPTY)
    decreases t.size
  {
    if t.Status() == FULL {
    } else if t.Split? {
      AllocKeepsCoalesced(t.left, a + HEADER, request);
      AllocKeepsCoalesced(t.right, RightAddress(a, t.size), request);
    } else if request <= t.size && t.size / 2 >= request {
      var child := Leaf(ChildSize(t.size), false);
      AllocKeepsCoalesced(child, a + HEADER, request);
      AllocSucceedsIff(child, a + HEADER, request);
    }
  }

  /** Exactly when splitting an EMPTY leaf for a request keeps the tree coalesced. */
  lemma SplitInVainIff(size: nat, a: int, request: nat)
    requires BLOCK <= request <= size
    ensures Coalesced(Alloc(Leaf(size, false), a, request).0) <==> GoodChain(size, request)
  {
    var t := Leaf(size, false);
    AllocSucceedsIff(t, a, request);
    AllocAddsOneBlock(t, a, request);
    EmptyMeansNoBlocks(Alloc(t, a, request).0, a);
    if GoodChain(size, request) { AllocKeepsCoalesced(t, a, request); }
  }

  lemma {:induction false} FreeKeepsCoalesced(t: Tree, a: int, p: int)
    requires WellFormed(t) && Coalesced(t)
    ensures Coalesced(Free(t, a, p))
    decreases t, 1
  {
    if t.Split? { FreedJoinCoalesced(t, a, p); }
  }

  lemma {:induction false} FreedJoinCoalesced(t: Tree, a: int, p: int)
    requires WellFormed(t) && Coalesced(t) && t.Split?
    ensures Coalesced(FreedJoin(t, a, p).left) && Coalesced(FreedJoin(t, a, p).right)
    decreases t, 0
  {
    FreeKeepsCoalesced(t.left, a + HEADER, p);
    FreeKeepsCoalesced(t.right, RightAddress(a, t.size), p);
  }

  /** A coalesced tree with nothing handed out is the single EMPTY root. */
  lemma NoBlocksMeansSingleRoot(t: Tree, a: int)
    requires WellFormed(t) && Coalesced(t) && Blocks(t, a) == map[]
    ensures t == Leaf(t.size, false)
  {
    EmptyMeansNoBlocks(t, a);
  }

  // ---------- Requests ----------

  /** The size genericAllocMemory searches for. */
  function RoundUp(size: nat): (r: nat) {
    if size < BLOCK then BLOCK else if IsPowerOf2(size) then size else Align(size)
  }

  /** genericAllocMemory: requests above the root are refused before rounding. */
  function GenericAlloc(t: Tree, a: int, size: nat): (r: (Tree, Option<int>))
    requires WellFormed(t) && t.size < 0x8000_0000
    ensures r.0.size == t.size && WellFormed(r.0)
  {
    if size >= BLOCK && size > t.size then (t, None)
    else
      RoundUpIsPower(size);
      Alloc(t, a, RoundUp(size))
  }

  function Max(x: nat, y: nat): nat { if x > y then x else y }

  lemma Pow2Of31()
    ensures Pow2(31) == 0x8000_0000 && Pow2(12) == BLOCK
  {
    ShiftConstants();
    Pow2Add(8, 4);
    Pow2Add(16, 8);
    Pow2Add(24, 4);
    Pow2Add(28, 2);
    Pow2Add(30, 1);
  }

  /** Every rounded request is a power of two from 0x1000 up, below twice what was asked. */
  lemma RoundUpIsPower(size: nat)
    requires size < BLOCK || size < 0x8000_0000
    ensures Max(size, BLOCK) <= RoundUp(size) < 2 * Max(size, BLOCK)
    ensures exists n: nat :: n >= 12 && RoundUp(size) == Pow2(n)
  {
    Pow2Of31();
    var n: nat := 12;
    if size < BLOCK {
    } else if IsPowerOf2(size) {
      n := OnlyPowersPassTheTest(size);
    } else {
      AlignIsLeastPowerAbove(size);
      n :| Align(size) == Pow2(n);
      if n > 0 { PowersPassTheTest(n - 1); }
    }
    assert RoundUp(size) == Pow2(n);
    ExponentOfBlock(n);
  }

  lemma ExponentOfBlock(n: nat)
    requires Pow2(n) >= BLOCK
    ensures n >= 12
  {
    Pow2Monotone(n, 11);
  }

  /** Every granted payload holds the request and is smaller than four times it (or than 16 KiB). */
  lemma GrantedSize(t: Tree, a: int, size: nat)
    requires WellFormed(t) && t.size < 0x8000_0000
    ensures var (t', p) := GenericAlloc(t, a, size);
      p.Some? ==> p.value in Blocks(t', a) && size <= Blocks(t', a)[p.value] < 4 * Max(size, BLOCK)
  {
    if !(size >= BLOCK && size > t.size) {
      RoundUpIsPower(size);
      AllocAddsOneBlock(t, a, RoundUp(size));
    }
  }
}
