/**
  Kernel/memoryManagement/buddyMemoryManager.c as it runs: node headers stored in the memory they
  manage, followed by address and changed in place.  Each method is proved to perform the tree
  operation of BuddyTree on whatever tree the headers represent.
 */
module BuddyMemory {
  import opened Options
  import opened BuddyTree

  const NULL: int := 0

  datatype MemNode = MemNode(right: int, left: int, size: int, status: Status)

  type Memory = map<int, MemNode>

  // ---------- What a memory represents ----------

  ghost predicate NoLinks(n: MemNode) { n.left == NULL && n.right == NULL }

  /** No header left behind in [lo, hi) has links. */
  ghost predicate Quiet(m: Memory, lo: int, hi: int) {
    forall k | lo <= k < hi && k in m :: NoLinks(m[k])
  }

  /**
    The headers at and below a are those of t.  Unless the allocator clears the links of fresh
    children, stale headers inside leaves and in the bytes no child covers must have none.
   */
  ghost predicate Represents(m: Memory, a: int, t: Tree, clears: bool)
    decreases t
  {
    && a in m && m[a].size == t.size && m[a].status == t.Status()
    && match t
       case Leaf(size, _) =>
         NoLinks(m[a]) && (clears || Quiet(m, a, a + HEADER + size))
       case Split(size, _, left, right) =>
         var b := RightAddress(a, size);
         && m[a].left == a + HEADER && m[a].right == b
         && Represents(m, a + HEADER, left, clears) && Represents(m, b, right, clears)
         && (clears || QuietGaps(m, a, size))
  }

  ghost predicate QuietGaps(m: Memory, a: int, size: nat) {
    && Quiet(m, a + 1, a + HEADER)
    && Quiet(m, RightAddress(a, size) + size / 2, a + HEADER + size)
  }

  ghost predicate Agree(m: Memory, m': Memory, lo: int, hi: int) {
    forall k | lo <= k < hi :: (k in m <==> k in m') && (k in m ==> m[k] == m'[k])
  }

  ghost predicate AgreeOutside(m: Memory, m': Memory, lo: int, hi: int) {
    forall k | k < lo || hi <= k :: (k in m <==> k in m') && (k in m ==> m[k] == m'[k])
  }

  /** A tree is represented by its own span of memory alone. */
  lemma {:induction false} RepresentsFrame(m: Memory, m': Memory, a: int, t: Tree, clears: bool)
    requires WellFormed(t) && Represents(m, a, t, clears) && Agree(m, m', a, a + HEADER + t.size)
    ensures Represents(m', a, t, clears)
    decreases t
  {
    if t.Split? {
      RepresentsFrame(m, m', a + HEADER, t.left, clears);
      RepresentsFrame(m, m', RightAddress(a, t.size), t.right, clears);
    }
  }

  ghost function Interval(lo: int, length: nat): (r: set<int>)
    ensures forall k :: k in r <==> lo <= k < lo + length
  {
    if length == 0 then {} else Interval(lo, length - 1) + {lo + length - 1}
  }

  /** Every address inside the payload of an outstanding block. */
  ghost function Payloads(t: Tree, a: int): set<int> {
    match t
    case Leaf(size, full) =>
      if full then Interval(a + HEADER, size) else {}
    case Split(size, _, left, right) =>
      Payloads(left, a + HEADER) + Payloads(right, RightAddress(a, size))
  }

  lemma {:induction false} PayloadsInside(t: Tree, a: int)
    requires WellFormed(t)
    ensures forall k | k in Payloads(t, a) :: a + HEADER <= k < a + HEADER + t.size
  {
    if t.Split? {
      PayloadsInside(t.left, a + HEADER);
      PayloadsInside(t.right, RightAddress(a, t.size));
    }
  }

  /** Between m and m' nothing in [lo, hi) changed except at the given addresses. */
  ghost predicate ChangedOnly(m: Memory, m': Memory, addresses: set<int>, lo: int, hi: int) {
    forall k | lo <= k < hi && k !in addresses :: (k in m <==> k in m') && (k in m ==> m[k] == m'[k])
  }

  lemma NarrowChanges(m: Memory, m': Memory, S: set<int>, lo: int, hi: int, S': set<int>, lo': int, hi': int)
    requires ChangedOnly(m, m', S, lo, hi) && lo <= lo' && hi' <= hi
    requires forall k | k in S && lo' <= k < hi' :: k in S'
    ensures ChangedOnly(m, m', S', lo', hi')
  {
  }

  ghost predicate NoLinksAt(m: Memory, addresses: set<int>) {
    forall k | k in addresses && k in m :: NoLinks(m[k])
  }

  /**
    A client may write anything over the payloads it was handed: the tree stands when fresh
    children are cleared, and as written when the words read as headers keep NULL links.
   */
  lemma {:induction false} ClientWritesAreHarmless(m: Memory, m': Memory, a: int, t: Tree, clears: bool)
    requires WellFormed(t) && Represents(m, a, t, clears)
    requires ChangedOnly(m, m', Payloads(t, a), a, a + HEADER + t.size)
    requires clears || NoLinksAt(m', Payloads(t, a))
    ensures Represents(m', a, t, clears)
    decreases t
  {
    PayloadsInside(t, a);
    if t.Split? {
      var b := RightAddress(a, t.size);
      var L, R := Payloads(t.left, a + HEADER), Payloads(t.right, b);
      PayloadsInside(t.left, a + HEADER);
      PayloadsInside(t.right, b);
      NarrowChanges(m, m', L + R, a, a + HEADER + t.size, L, a + HEADER, b);
      ClientWritesAreHarmless(m, m', a + HEADER, t.left, clears);
      NarrowChanges(m, m', L + R, a, a + HEADER + t.size, R, b, b + t.size / 2);
      ClientWritesAreHarmless(m, m', b, t.right, clears);
      GapsUnchanged(m, m', a, t, clears);
    }
  }

  lemma GapsUnchanged(m: Memory, m': Memory, a: int, t: Tree, clears: bool)
    requires WellFormed(t) && t.Split? && (clears || QuietGaps(m, a, t.size))
    requires ChangedOnly(m, m', Payloads(t, a), a, a + HEADER + t.size)
    ensures clears || QuietGaps(m', a, t.size)
  {
    var b := RightAddress(a, t.size);
    PayloadsInside(t.left, a + HEADER);
    PayloadsInside(t.right, b);
    forall k | a < k < a + HEADER || b + t.size / 2 <= k < a + HEADER + t.size
      ensures k !in Payloads(t, a)
    {
    }
  }

  // ---------- Payloads the allocator leaves alone ----------

  predicate Changed(m: Memory, m': Memory, x: int) { x in m' && (x !in m || m'[x] != m[x]) }

  /** A header at x reaches into none of the blocks. */
  ghost predicate Spared(blocks: map<int, nat>, x: int) {
    forall p | p in blocks :: p + blocks[p] <= x || x + HEADER <= p
  }

  /** Every header written lies inside the node at a, and reaches into no block outstanding in its tree t. */
  ghost predicate Spares(m: Memory, m': Memory, a: int, t: Tree) {
    m.Keys <= m'.Keys && forall x | Changed(m, m', x) :: WrittenAt(x, a, t)
  }

  ghost predicate WrittenAt(x: int, a: int, t: Tree) { a <= x <= a + t.size && Spared(Blocks(t, a), x) }

  /** The header of a node is in front of all its blocks. */
  lemma HeaderIsSpared(m: Memory, a: int, n: MemNode, t: Tree)
    requires WellFormed(t) && a in m
    ensures Spares(m, m[a := n], a, t)
  {
    BlocksInside(t, a);
  }

  lemma SparesTwice(m: Memory, m1: Memory, m2: Memory, a: int, t: Tree)
    requires Spares(m, m1, a, t) && Spares(m1, m2, a, t)
    ensures Spares(m, m2, a, t)
  {
    forall x | Changed(m, m2, x) ensures WrittenAt(x, a, t) {
      assert Changed(m, m1, x) || Changed(m1, m2, x);
    }
  }

  /** What is written in one child is away from the blocks of the other. */
  lemma ChildSpares(m: Memory, m': Memory, a: int, t: Tree, onLeft: bool)
    requires WellFormed(t) && t.Split?
    requires if onLeft then Spares(m, m', a + HEADER, t.left) else Spares(m, m', RightAddress(a, t.size), t.right)
    ensures Spares(m, m', a, t)
  {
    var b := RightAddress(a, t.size);
    BlocksInside(t.left, a + HEADER);
    BlocksInside(t.right, b);
    forall x | Changed(m, m', x) ensures WrittenAt(x, a, t) {
      assert if onLeft then WrittenAt(x, a + HEADER, t.left) else WrittenAt(x, b, t.right);
      SparedByBoth(Blocks(t.left, a + HEADER), Blocks(t.right, b), x);
    }
  }

  lemma SparedByBoth(L: map<int, nat>, R: map<int, nat>, x: int)
    requires Spared(L, x) && Spared(R, x)
    ensures Spared(L + R, x)
  {
  }

  /** A write in one child, and then to the header of the node. */
  lemma ChildThenHeader(m: Memory, m1: Memory, m2: Memory, a: int, t: Tree, onLeft: bool)
    requires WellFormed(t) && t.Split? && a in m1 && a in m2 && m2 == m1[a := m2[a]]
    requires if onLeft then Spares(m, m1, a + HEADER, t.left) else Spares(m, m1, RightAddress(a, t.size), t.right)
    ensures Spares(m, m2, a, t)
  {
    ChildSpares(m, m1, a, t, onLeft);
    HeaderIsSpared(m1, a, m2[a], t);
    SparesTwice(m, m1, m2, a, t);
  }

  /** An empty leaf has no blocks: all that is written in it and in its left half is spared. */
  lemma HalfSpares(m: Memory, m1: Memory, m2: Memory, m3: Memory, a: int, size: nat)
    requires ChildSize(size) >= 0 && Spares(m, m1, a, Leaf(size, false))
    requires Spares(m1, m2, a + HEADER, Leaf(ChildSize(size), false))
    requires a in m2 && a in m3 && m3 == m2[a := m3[a]]
    ensures Spares(m, m3, a, Leaf(size, false))
  {
    forall x | Changed(m, m3, x) ensures WrittenAt(x, a, Leaf(size, false)) {
      assert x == a || Changed(m, m1, x) || Changed(m1, m2, x);
    }
  }

  // ---------- The allocator ----------

  class BuddyMemoryManager {
    /** false: setDescendants as written; true: with `left->left = left->right = NULL` and the same for right. */
    const clearsLinks: bool
    const root: int
    var memory: Memory
    ghost var tree: Tree

    /** Words never written read as zero. */
    function Read(a: int): MemNode
      reads this
    {
      if a in memory then memory[a] else MemNode(NULL, NULL, 0, EMPTY)
    }

    ghost predicate Valid()
      reads this
    {
      && root > NULL && WellFormed(tree) && tree.size < 0x8000_0000
      && Represents(memory, root, tree, clearsLinks)
      && (clearsLinks || Coalesced(tree))
    }

    /** initMemory, on an arena holding the given contents. */
    constructor (init: int, size: nat, contents: Memory, clearsLinks: bool)
      requires init > NULL && HEADER <= size < 0x8000_0000
      requires clearsLinks || Quiet(contents, init, init + size)
      ensures Valid() && root == init && tree == Leaf(size - HEADER, false)
      ensures this.clearsLinks == clearsLinks
      ensures memory == contents[init := MemNode(NULL, NULL, size - 32, EMPTY)]
    {
      this.clearsLinks := clearsLinks;
      root := init;
      memory := contents[init := MemNode(NULL, NULL, size - HEADER, EMPTY)];
      tree := Leaf(size - HEADER, false);
    }

    /** genericAllocMemory.  As written, the request must halve down from the root without overshooting. */
    method GenericAllocMemory(size: nat) returns (p: int)
      requires Valid()
      requires clearsLinks || (size >= BLOCK && size > tree.size) ||
        (RoundUp(size) >= BLOCK && (GoodChain(tree.size, RoundUp(size)) || tree.size < RoundUp(size)))
      modifies this
      ensures Valid()
      ensures var (tree', granted) := GenericAlloc(old(tree), root, size);
        tree == tree' && p == match granted case None => NULL case Some(q) => q
      ensures Spares(old(memory), memory, root, old(tree))
    {
      if size >= BLOCK && size > memory[root].size {
        return NULL;
      }
      RoundUpIsPower(size);
      var request := RoundUp(size);
      ghost var t := tree;
      p := GenericAllocMemoryRec(root, request, t);
      tree := Alloc(t, root, request).0;
      if !clearsLinks { AllocKeepsCoalesced(t, root, request); }
    }

    /** freeMemory, for any address at all. */
    method GenericFree(memoryToFree: int)
      requires Valid()
      modifies this
      ensures Valid() && tree == Free(old(tree), root, memoryToFree)
      ensures Spares(old(memory), memory, root, old(tree))
    {
      ghost var t := tree;
      GenericFreeRec(root, memoryToFree, t);
      tree := Free(t, root, memoryToFree);
      if !clearsLinks { FreeKeepsCoalesced(t, root, memoryToFree); }
    }

    ghost predicate InArena(node: int, size: int)
      reads this
    {
      && NULL < root <= node && root in memory
      && node + HEADER + size <= root + HEADER + memory[root].size
    }

    method GenericAllocMemoryRec(node: int, size: nat, ghost t: Tree) returns (p: int)
      requires WellFormed(t) && Represents(memory, node, t, clearsLinks) && InArena(node, t.size)
      requires size >= BLOCK
      requires clearsLinks || (Coalesced(t) && (GoodChain(t.size, size) || t.size < size))
      modifies this`memory
      ensures var (t', granted) := Alloc(t, node, size);
        && Represents(memory, node, t', clearsLinks)
        && p == match granted case None => NULL case Some(q) => q
      ensures AgreeOutside(old(memory), memory, node, node + HEADER + t.size)
      ensures Spares(old(memory), memory, node, t)
      ensures root in memory && memory[root].size == old(memory[root].size)
      decreases t.size, 2
    {
      if node == NULL || memory[node].status == FULL {
        return NULL;
      }
      if memory[node].left != NULL || memory[node].right != NULL {
        p := AllocInChildren(node, size, t);
      } else {
        if size > memory[node].size {
          return NULL;
        }
        if memory[node].size / 2 >= size {
          p := AllocInHalf(node, size, t.size);
        } else {
          memory := memory[node := memory[node].(status := FULL)];
          p := node + HEADER;
        }
      }
    }

    /** The branch of genericAllocMemoryRec for a node with children: the left one first. */
    method AllocInChildren(node: int, size: nat, ghost t: Tree) returns (p: int)
      requires WellFormed(t) && Represents(memory, node, t, clearsLinks) && InArena(node, t.size)
      requires size >= BLOCK && t.Split? && t.summary != FULL
      requires clearsLinks || (Coalesced(t) && (GoodChain(t.size, size) || t.size < size))
      modifies this`memory
      ensures var (t', granted) := Alloc(t, node, size);
        && Represents(memory, node, t', clearsLinks)
        && p == match granted case None => NULL case Some(q) => q
      ensures AgreeOutside(old(memory), memory, node, node + HEADER + t.size)
      ensures Spares(old(memory), memory, node, t)
      ensures root in memory && memory[root].size == old(memory[root].size)
      decreases t.size, 1
    {
      ghost var m := memory;
      p := GenericAllocMemoryRec(memory[node].left, size, t.left);
      ghost var m1 := memory;
      ghost var (left, granted) := Alloc(t.left, node + HEADER, size);
      RepresentsFrame(m, memory, RightAddress(node, t.size), t.right, clearsLinks);
      if p == NULL {
        p := AllocInRight(node, size, t, left);
        ChildSpares(m, m1, node, t, true);
        SparesTwice(m, m1, memory, node, t);
      } else {
        EndRecursiveCall(node, left, t.right);
        assert Spares(m, memory, node, t) by { ChildThenHeader(m, m1, memory, node, t, true); }
      }
    }

    /** The same branch once the left child has refused, which may have split it: left is what it became. */
    method AllocInRight(node: int, size: nat, ghost t: Tree, ghost left: Tree) returns (p: int)
      requires t.Split? && WellFormed(t) && InArena(node, t.size) && size >= BLOCK
      requires node in memory && memory[node].size == t.size
      requires memory[node].left == node + HEADER && memory[node].right == RightAddress(node, t.size)
      requires WellFormed(left) && left.size == t.left.size && Represents(memory, node + HEADER, left, clearsLinks)
      requires Represents(memory, RightAddress(node, t.size), t.right, clearsLinks)
      requires clearsLinks || QuietGaps(memory, node, t.size)
      requires clearsLinks || (Coalesced(t.right) && (GoodChain(t.right.size, size) || t.right.size < size))
      modifies this`memory
      ensures var (right, granted) := Alloc(t.right, RightAddress(node, t.size), size);
        && Represents(memory, node, Join(t.size, left, right), clearsLinks)
        && p == match granted case None => NULL case Some(q) => q
      ensures AgreeOutside(old(memory), memory, node, node + HEADER + t.size)
      ensures Spares(old(memory), memory, node, t)
      ensures root in memory && memory[root].size == old(memory[root].size)
      decreases t.size, 0
    {
      ghost var m := memory;
      p := GenericAllocMemoryRec(memory[node].right, size, t.right);
      ghost var m1 := memory;
      RepresentsFrame(m, memory, node + HEADER, left, clearsLinks);
      EndRecursiveCall(node, left, Alloc(t.right, RightAddress(node, t.size), size).0);
      assert Spares(m, memory, node, t) by { ChildThenHeader(m, m1, memory, node, t, false); }
    }

    /** The branch of genericAllocMemoryRec for a leaf at least twice the request. */
    method AllocInHalf(node: int, size: nat, ghost nodeSize: nat) returns (p: int)
      requires Represents(memory, node, Leaf(nodeSize, false), clearsLinks) && InArena(node, nodeSize)
      requires nodeSize / 2 >= size >= BLOCK
      requires clearsLinks || GoodChain(nodeSize, size)
      modifies this`memory
      ensures var (t', granted) := Alloc(Leaf(nodeSize, false), node, size);
        && Represents(memory, node, t', clearsLinks)
        && p == match granted case None => NULL case Some(q) => q
      ensures AgreeOutside(old(memory), memory, node, node + HEADER + nodeSize)
      ensures Spares(old(memory), memory, node, Leaf(nodeSize, false))
      ensures root in memory && memory[root].size == old(memory[root].size)
      decreases nodeSize, 0
    {
      ghost var m0 := memory;
      SetDescendants(node, nodeSize);
      ghost var m := memory;
      ghost var child := Leaf(ChildSize(nodeSize), false);
      p := GenericAllocMemoryRec(memory[node].left, size, child);
      ghost var m1 := memory;
      RepresentsFrame(m, memory, RightAddress(node, nodeSize), child, clearsLinks);
      EndRecursiveCall(node, Alloc(child, node + HEADER, size).0, child);
      assert Spares(m0, memory, node, Leaf(nodeSize, false)) by { HalfSpares(m0, m, m1, memory, node, nodeSize); }
    }

    /** setDescendants: the children become leaves exactly when their stale links are NULL, or are cleared. */
    method SetDescendants(node: int, ghost size: nat)
      requires Represents(memory, node, Leaf(size, false), clearsLinks) && InArena(node, size)
      requires ChildSize(size) > 0
      modifies this`memory
      ensures node in memory && memory[node] ==
        MemNode(RightAddress(node, size), node + HEADER, size, old(memory[node]).status)
      ensures node + 32 in memory && memory[node + 32].size == size / 2 - 32
      ensures node + size / 2 + 32 in memory && memory[node + size / 2 + 32].size == size / 2 - 32
      ensures Represents(memory, node + HEADER, Leaf(ChildSize(size), false), clearsLinks)
      ensures Represents(memory, RightAddress(node, size), Leaf(ChildSize(size), false), clearsLinks)
      ensures clearsLinks || QuietGaps(memory, node, size)
      ensures AgreeOutside(old(memory), memory, node, node + HEADER + size)
      ensures Spares(old(memory), memory, node, Leaf(size, false))
      ensures root in memory && memory[root].size == old(memory[root].size)
    {
      var descendantSize := memory[node].size / 2;
      var left := node + HEADER;
      memory := memory[node := memory[node].(left := left)];
      var limit := root + memory[root].size + HEADER;
      if left < limit {
        FreshChild(left, descendantSize - HEADER);
        var right := node + descendantSize + HEADER;
        memory := memory[node := memory[node].(right := right)];
        if right < limit {
          FreshChild(right, descendantSize - HEADER);
        }
      }
    }

    /** The assignments setDescendants makes to one child: its links are left as found, unless repaired. */
    method FreshChild(child: int, size: int)
      modifies this`memory
      ensures child in memory
      ensures NoLinks(memory[child]) <==> clearsLinks || NoLinks(old(Read(child)))
      ensures memory[child].size == size && memory[child].status == EMPTY
      ensures memory == old(memory)[child := memory[child]]
    {
      memory := memory[child := Read(child).(size := size, status := EMPTY)];
      if clearsLinks {
        memory := memory[child := memory[child].(left := NULL, right := NULL)];
      }
    }

    /** endRecursiveCall on a node whose children represent left and right. */
    method EndRecursiveCall(node: int, ghost left: Tree, ghost right: Tree)
      requires node in memory && NULL < node
      requires 0 <= memory[node].size && left.size == ChildSize(memory[node].size) == right.size
      requires memory[node].left == node + HEADER && memory[node].right == RightAddress(node, memory[node].size)
      requires WellFormed(left) && Represents(memory, node + HEADER, left, clearsLinks)
      requires WellFormed(right) && Represents(memory, RightAddress(node, memory[node].size), right, clearsLinks)
      requires clearsLinks || QuietGaps(memory, node, memory[node].size)
      modifies this`memory
      ensures Represents(memory, node, Join(old(memory[node].size), left, right), clearsLinks)
      ensures memory == old(memory)[node := old(memory)[node].(status := Summary(left.Status(), right.Status()))]
    {
      ghost var m := memory;
      ghost var b := RightAddress(node, memory[node].size);
      var l, r := memory[node].left, memory[node].right;
      var status;
      if l == NULL || r == NULL {
        status := EMPTY;
      } else if memory[l].status == FULL && memory[r].status == FULL {
        status := FULL;
      } else if memory[l].status == FULL || memory[r].status == FULL
                || memory[l].status == PARTIAL || memory[r].status == PARTIAL {
        status := PARTIAL;
      } else {
        status := EMPTY;
      }
      memory := memory[node := memory[node].(status := status)];
      RepresentsFrame(m, memory, node + HEADER, left, clearsLinks);
      RepresentsFrame(m, memory, b, right, clearsLinks);
    }

    method GenericFreeRec(node: int, memoryToFree: int, ghost t: Tree)
      requires NULL < node && WellFormed(t) && Represents(memory, node, t, clearsLinks)
      requires clearsLinks || Coalesced(t)
      modifies this`memory
      ensures Represents(memory, node, Free(t, node, memoryToFree), clearsLinks)
      ensures AgreeOutside(old(memory), memory, node, node + HEADER + t.size)
      ensures Spares(old(memory), memory, node, t)
      decreases t, 2
    {
      if node == NULL {
        return;
      }
      if memory[node].left != NULL || memory[node].right != NULL {
        ghost var m := memory;
        FreeInChildren(node, memoryToFree, t);
        ghost var m1 := memory;
        if !clearsLinks { FreedJoinCoalesced(t, node, memoryToFree); }
        if memory[node].status == EMPTY {
          memory := memory[node := memory[node].(right := NULL, left := NULL)];
          HeaderIsSpared(m1, node, memory[node], t);
          SparesTwice(m, m1, memory, node, t);
        }
      } else if memory[node].status == FULL {
        if node + HEADER == memoryToFree {
          memory := memory[node := memory[node].(status := EMPTY)];
        }
      }
    }

    /** genericFreeRec's descent, and the status of the node from those of its children. */
    method FreeInChildren(node: int, memoryToFree: int, ghost t: Tree)
      requires NULL < node && WellFormed(t) && t.Split? && Represents(memory, node, t, clearsLinks)
      requires clearsLinks || Coalesced(t)
      modifies this`memory
      ensures var joined := FreedJoin(t, node, memoryToFree);
        WellFormed(joined) && Represents(memory, node, joined, clearsLinks)
      ensures AgreeOutside(old(memory), memory, node, node + HEADER + t.size)
      ensures Spares(old(memory), memory, node, t)
      decreases t, 1
    {
      ghost var m := memory;
      ghost var left, right := FreeInOneChild(node, memoryToFree, t);
      ghost var m1 := memory;
      EndRecursiveCall(node, left, right);
      HeaderIsSpared(m1, node, memory[node], t);
      SparesTwice(m, m1, memory, node, t);
    }

    /** The child whose half of the addresses holds memoryToFree frees it; left and right are what they become. */
    method FreeInOneChild(node: int, memoryToFree: int, ghost t: Tree) returns (ghost left: Tree, ghost right: Tree)
      requires NULL < node && WellFormed(t) && t.Split? && Represents(memory, node, t, clearsLinks)
      requires clearsLinks || Coalesced(t)
      modifies this`memory
      ensures FreedJoin(t, node, memoryToFree) == Join(t.size, left, right)
      ensures WellFormed(left) && WellFormed(right) && left.size == ChildSize(t.size) == right.size
      ensures Represents(memory, node + HEADER, left, clearsLinks)
      ensures Represents(memory, RightAddress(node, t.size), right, clearsLinks)
      ensures node in old(memory) && node in memory && memory[node] == old(memory)[node]
      ensures clearsLinks || QuietGaps(memory, node, t.size)
      ensures AgreeOutside(old(memory), memory, node, node + HEADER + t.size)
      ensures Spares(old(memory), memory, node, t)
      decreases t, 0
    {
      ghost var m := memory;
      ghost var b := RightAddress(node, t.size);
      if memory[node].right != NULL && memory[node].right + HEADER > memoryToFree {
        GenericFreeRec(memory[node].left, memoryToFree, t.left);
        left, right := Free(t.left, node + HEADER, memoryToFree), t.right;
        RepresentsFrame(m, memory, b, right, clearsLinks);
        ChildSpares(m, memory, node, t, true);
      } else {
        GenericFreeRec(memory[node].right, memoryToFree, t.right);
        left, right := t.left, Free(t.right, b, memoryToFree);
        RepresentsFrame(m, memory, node + HEADER, left, clearsLinks);
        ChildSpares(m, memory, node, t, false);
      }
    }
  }
}
