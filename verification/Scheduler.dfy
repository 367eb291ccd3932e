/**
  Kernel/interruptRelated/scheduler.c as it runs: PCB nodes linked by `next` into seven lists, walked
  with a previous pointer and changed in place.  Each method is proved to perform the operation of
  SchedulerSpec on the lists its nodes form.
 */
module Scheduler {
  import opened Options
  import opened SchedulerSpec
  import opened SchedulerPopulation

  const NULL: int := 0

  datatype PCBNode = PCBNode(next: int, pcb: PCB)

  type Memory = map<int, PCBNode>

  /** What follows position k of a list. */
  function NextOf(list: seq<int>, k: nat): int
    requires k < |list|
  {
    if k + 1 < |list| then list[k + 1] else NULL
  }

  function HeadOf(list: seq<int>): int { if list == [] then NULL else list[0] }

  ghost predicate Linked(m: Memory, head: int, list: seq<int>) {
    && head == HeadOf(list)
    && forall k | 0 <= k < |list| :: list[k] != NULL && list[k] in m && m[list[k]].next == NextOf(list, k)
  }

  ghost predicate AllLinked(m: Memory, heads: seq<int>, lists: seq<seq<int>>) {
    |heads| == LISTS && |lists| == LISTS && forall i | 0 <= i < LISTS :: Linked(m, heads[i], lists[i])
  }

  ghost predicate In(p: int, lists: seq<seq<int>>) {
    exists i, k :: 0 <= i < |lists| && 0 <= k < |lists[i]| && lists[i][k] == p
  }

  /** No node is linked twice. */
  ghost predicate Injective(lists: seq<seq<int>>) {
    forall i, k, j, l | 0 <= i < |lists| && 0 <= k < |lists[i]| && 0 <= j < |lists| && 0 <= l < |lists[j]|
      && lists[i][k] == lists[j][l] :: i == j && k == l
  }

  function BlocksOf(m: Memory): map<int, PCB> { map p | p in m :: m[p].pcb }

  class Kernel {
    const idle: int
    /** false: nextProcess as written; true: with a case that queues READY like RUNNING. */
    const requeuesReady: bool
    var memory: Memory
    var heads: seq<int>
    var current: int
    ghost var lists: seq<seq<int>>

    ghost predicate Chained()
      reads this
    {
      AllLinked(memory, heads, lists) && Injective(lists)
    }

    ghost function Abs(): Sched
      reads this
    {
      Sched(current, idle, BlocksOf(memory), lists, requeuesReady)
    }

    ghost predicate Valid()
      reads this
    {
      Chained() && Once(Abs()) && current != NULL && idle != NULL
    }

    /**
      createInit, given the two nodes it allocates: init ready at level 0, idle apart, nothing running.
      The slots of idle are not written: they are whatever that memory held.
     */
    constructor (initNode: int, idleNode: int, stale: seq<nat>, requeuesReady: bool)
      requires initNode != NULL && idleNode != NULL && initNode != idleNode
      ensures Chained() && current == NULL && idle == idleNode && this.requeuesReady == requeuesReady
      ensures lists == [[initNode], [], [], [], [], [], []]
      ensures BlocksOf(memory) ==
        map[initNode := PCB(INIT_ID, READY, 1, 0, 0, 0, NO_CHILDREN),
            idleNode := PCB(IDLE_ID, READY, 1, 0, 0, 0, stale)]
    {
      idle := idleNode;
      this.requeuesReady := requeuesReady;
      memory := map[
        initNode := PCBNode(NULL, PCB(INIT_ID, READY, 1, 0, 0, 0, NO_CHILDREN)),
        idleNode := PCBNode(NULL, PCB(IDLE_ID, READY, 1, 0, 0, 0, stale))
      ];
      heads := [initNode, NULL, NULL, NULL, NULL, NULL, NULL];
      current := NULL;
      lists := [[initNode], [], [], [], [], [], []];
    }

    /**
      scheduler; the interval is what the time stamp counter measured since the last call, due the
      processes whose timers have run out.
     */
    method Schedule(interval: nat, due: seq<int>)
      requires if current == NULL
        then Chained() && lists[0] != [] && Once(Boot(Abs())) && idle != NULL
        else Valid()
      modifies this
      ensures Valid()
      ensures Abs() == if old(current) == NULL then Boot(old(Abs())) else Tick(old(Abs()), interval, due)
      ensures old(current) == NULL ==> current == old(lists[0][0]) && lists == old(lists)[0 := []]
    {
      if current == NULL {
        StartInit();
        return;
      }
      ghost var s := Abs();
      AgeStep(s, interval);
      AgeCurrent(interval);
      WakeStep(Abs(), due);
      UpdateTimers(due);
      CheckBlockedStep(Abs());
      CheckBlocked();
      CheckExited();
      SpendStep(Abs());
      SpendQuantum();
      var e := memory[current].pcb;
      if e.quantums < 1 || e.state == BLOCKED || e.state == YIELDED {
        NextProcess();
      }
    }

    /** updateTimers, given the processes whose timers are due. */
    method UpdateTimers(due: seq<int>)
      requires Chained() && Shaped(Abs())
      modifies this`memory
      ensures Chained() && Abs() == Wake(old(Abs()), due)
    {
      var i := 0;
      while i < |due|
        invariant 0 <= i <= |due| && Chained() && Shaped(Abs())
        invariant Wake(Abs(), due[i..]) == Wake(old(Abs()), due)
      {
        WakeTurn(Abs(), due, i);
        UpdateTimer(due[i]);
        i := i + 1;
      }
    }

    /** One due timer. */
    method UpdateTimer(p: int)
      requires Chained() && Shaped(Abs())
      modifies this`memory
      ensures Chained() && Abs() == Wake(old(Abs()), [p])
    {
      WakeTurn(Abs(), [p], 0);
      if p in memory && memory[p].pcb.state != EXITED {
        SetBlock(p, memory[p].pcb.(state := READY));
      }
    }

    /** The first call of scheduler. */
    method StartInit()
      requires Chained() && lists[0] != [] && Once(Boot(Abs())) && idle != NULL
      modifies this
      ensures Valid() && Abs() == Boot(old(Abs()))
    {
      assert Linked(memory, heads[0], lists[0]);
      current := heads[0];
      heads := heads[0 := NULL];
      lists := lists[0 := []];
      forall i | 0 <= i < LISTS ensures Linked(memory, heads[i], lists[i]) {
        assert Linked(memory, old(heads)[i], old(lists)[i]);
      }
    }

    method AgeCurrent(interval: nat)
      requires Chained() && Shaped(Abs())
      modifies this`memory
      ensures Chained() && Abs() == Age(old(Abs()), interval)
    {
      SetBlock(current, memory[current].pcb.(agingInterval := memory[current].pcb.agingInterval / 2 + interval));
    }

    method SpendQuantum()
      requires Chained() && Shaped(Abs())
      modifies this`memory
      ensures Chained() && Abs() == SchedulerSpec.SpendQuantum(old(Abs()))
    {
      SetBlock(current, memory[current].pcb.(quantums := memory[current].pcb.quantums - 1));
    }

    /** unusedID */
    method UnusedID() returns (id: nat)
      requires Valid()
      ensures id == UnusedId(Abs())
    {
      var max := memory[current].pcb.id;
      var i := 0;
      while i < LISTS
        invariant 0 <= i <= LISTS
        invariant MaxIdFrom(Abs(), 0, memory[current].pcb.id) == MaxIdFrom(Abs(), i, max)
      {
        max := MaxOfList(i, max);
        i := i + 1;
      }
      id := if max + 1 == 2 then 3 else max + 1;
    }

    /** The loop of unusedID over one list. */
    method MaxOfList(i: nat, start: nat) returns (max: nat)
      requires Chained() && Shaped(Abs()) && i < LISTS
      ensures max == MaxId(BlocksOf(memory), lists[i], 0, start)
    {
      max := start;
      ghost var list := lists[i];
      assert Linked(memory, heads[i], list);
      var node := heads[i];
      ghost var k := 0;
      while node != NULL
        invariant 0 <= k <= |list| && node == if k < |list| then list[k] else NULL
        invariant MaxId(BlocksOf(memory), list, 0, start) == MaxId(BlocksOf(memory), list, k, max)
        decreases |list| - k
      {
        max := if memory[node].pcb.id > max then memory[node].pcb.id else max;
        node := memory[node].next;
        k := k + 1;
      }
    }

    /**
      The pid, child and queue part of sysFork: newNode is what allocPCB returned, NULL when it had none,
      stale what its slots hold, and stackAllocated says whether the stack of the child could be allocated.
     */
    method SysFork(newNode: int, stale: seq<nat>, stackAllocated: bool) returns (pid: int)
      requires Valid() && memory[idle].pcb.id == IDLE_ID
      requires newNode != idle && newNode !in Bag(Abs())
      modifies this
      ensures Valid()
      ensures newNode == NULL || !stackAllocated ==> pid == -1 && Abs() == old(Abs())
      ensures newNode != NULL && stackAllocated ==>
        Abs() == Fork(old(Abs()), newNode, stale) && pid == UnusedId(old(Abs()))
    {
      if newNode == NULL {
        return -1;
      }
      if !stackAllocated {
        return -1;
      }
      ghost var s := Abs();
      ForkPopulation(s, newNode, stale);
      NotInBagNotQueued(newNode);
      var id := UnusedID();
      FillChild(newNode, stale, id);
      InsertInQueue(newNode);
      pid := id;
    }

    /** The fields sysFork writes before it queues the new node: the copy, and a slot of the parent. */
    method FillChild(newNode: int, stale: seq<nat>, id: nat)
      requires Chained() && Shaped(Abs()) && newNode != NULL && newNode != current && !In(newNode, lists)
      modifies this`memory
      ensures Chained() && newNode in memory
      ensures Abs() == old(Abs()).(pcb := Forked(old(Abs()), newNode, stale, id))
    {
      var parent := memory[current].pcb;
      var slots := FirstEmptySlot(parent.childsIds, id);
      var child := parent.(id := id, parentId := parent.id, childsIds := stale);
      NewNode(newNode, child);
      assert current in Abs().pcb;
      SetBlock(current, parent.(childsIds := slots));
      Commute(old(Abs()).pcb, newNode, child, current, parent.(childsIds := slots));
    }

    lemma Commute(m: map<int, PCB>, p: int, x: PCB, q: int, y: PCB)
      requires p != q
      ensures m[p := x][q := y] == m[q := y][p := x]
    {
    }

    /** The search of sysFork for an empty slot, and the store into it. */
    method FirstEmptySlot(childsIds: seq<nat>, id: nat) returns (slots: seq<nat>)
      ensures slots == AddChild(childsIds, id)
    {
      var i := 0;
      while i < |childsIds| && childsIds[i] != 0
        invariant 0 <= i <= |childsIds|
        invariant AddChild(childsIds, id) == childsIds[..i] + AddChild(childsIds[i..], id)
      {
        i := i + 1;
      }
      slots := if i < |childsIds| then childsIds[i := id] else childsIds + [id];
    }

    /** The fields sysFork fills in before the new node is linked. */
    method NewNode(newNode: int, pcb: PCB)
      requires Chained() && newNode != NULL && !In(newNode, lists)
      modifies this`memory
      ensures Chained() && Abs() == old(Abs()).(pcb := old(Abs()).pcb[newNode := pcb])
      ensures newNode in memory
    {
      ghost var m := memory;
      assert forall i, k | 0 <= i < LISTS && 0 <= k < |lists[i]| :: lists[i][k] != newNode;
      memory := memory[newNode := PCBNode(NULL, pcb)];
      forall i | 0 <= i < LISTS ensures Linked(memory, heads[i], lists[i]) {
        assert Linked(m, heads[i], lists[i]);
      }
      assert BlocksOf(memory) == BlocksOf(m)[newNode := pcb];
    }

    lemma NotInBagNotQueued(p: int)
      requires p !in Bag(Abs())
      ensures !In(p, lists)
    {
      forall i, k | 0 <= i < |lists| && 0 <= k < |lists[i]| ensures lists[i][k] != p {
        InQueued(lists, i, k);
      }
    }

    /** The loop shared by insertInQueue, insertLast and insertInBlockedQueue: link node behind the last one. */
    method InsertTail(i: nat, node: int)
      requires Chained() && i < LISTS && node in memory && node != NULL && !In(node, lists)
      modifies this`memory, this`heads, this`lists
      ensures Chained() && Abs() == Append(old(Abs()), i, node)
      ensures memory.Keys == old(memory).Keys
    {
      ghost var list := lists[i];
      assert Linked(memory, heads[i], list);
      var auxCurrent := heads[i];
      var previous := NULL;
      ghost var k := 0;
      while auxCurrent != NULL
        invariant 0 <= k <= |list|
        invariant auxCurrent == if k < |list| then list[k] else NULL
        invariant previous == if k == 0 then NULL else list[k - 1]
        decreases |list| - k
      {
        previous := auxCurrent;
        auxCurrent := memory[auxCurrent].next;
        k := k + 1;
      }
      if previous == NULL {
        heads := heads[i := node];
      } else {
        memory := memory[previous := memory[previous].(next := node)];
      }
      memory := memory[node := memory[node].(next := NULL)];
      lists := lists[i := list + [node]];
      AppendLinked(old(memory), old(heads), old(lists), memory, heads, i, node);
      assert BlocksOf(memory) == old(BlocksOf(memory));
    }
  
    /** insertInQueue */
    method InsertInQueue(node: int)
      requires Chained() && node in memory && node != NULL && !In(node, lists)
      modifies this`memory, this`heads, this`lists
      ensures Chained() && Abs() == SchedulerSpec.InsertInQueue(old(Abs()), node)
    {
      var i := QueueFor(memory[node].pcb.agingInterval);
      InsertTail(i, node);
      SetBlock(node, memory[node].pcb.(quantums := i + 1, priority := i));
    }

    /** The chain of comparisons at the head of insertInQueue. */
    method QueueFor(agingTime: nat) returns (i: nat)
      ensures i == Level(agingTime)
    {
      if agingTime <= QUANTUM_SIZE {
        i := 0;
      } else if agingTime <= QUANTUM_SIZE * 2 {
        i := 1;
      } else if agingTime <= QUANTUM_SIZE * 3 {
        i := 2;
      } else if agingTime <= QUANTUM_SIZE * 4 {
        i := 3;
      } else if agingTime <= QUANTUM_SIZE * 5 {
        i := 4;
      } else {
        i := 5;
      }
    }

    /** An assignment to the control block of a node. */
    method SetBlock(node: int, pcb: PCB)
      requires Chained() && node in memory
      modifies this`memory
      ensures Chained() && Abs() == old(Abs()).(pcb := old(Abs()).pcb[node := pcb])
      ensures memory.Keys == old(memory).Keys && memory[node].pcb == pcb
      ensures forall p | p in memory && p != node :: memory[p] == old(memory)[p]
    {
      ghost var m := memory;
      memory := memory[node := memory[node].(pcb := pcb)];
      forall i | 0 <= i < LISTS ensures Linked(memory, heads[i], lists[i]) {
        assert Linked(m, heads[i], lists[i]);
      }
      assert BlocksOf(memory) == BlocksOf(m)[node := pcb];
    }

    /** Takes the node after previous, or the head if previous is NULL, out of list i. */
    method Unlink(i: nat, previous: int, node: int, ghost k: nat)
      requires Chained() && i < LISTS && k < |lists[i]| && node == lists[i][k]
      requires previous == if k == 0 then NULL else lists[i][k - 1]
      modifies this`memory, this`heads, this`lists
      ensures Chained() && Abs() == Unlinked(old(Abs()), i, k)
      ensures !In(node, lists) && memory.Keys == old(memory).Keys
    {
      assert Linked(memory, heads[i], lists[i]);
      if previous == NULL {
        heads := heads[i := memory[node].next];
      } else {
        memory := memory[previous := memory[previous].(next := memory[node].next)];
      }
      lists := lists[i := lists[i][..k] + lists[i][k + 1..]];
      UnlinkLinked(old(memory), old(heads), old(lists), memory, heads, i, k);
    }

    /** checkBlocked */
    method CheckBlocked()
      requires Chained() && Shaped(Abs())
      modifies this`memory, this`heads, this`lists
      ensures Chained() && Abs() == SchedulerSpec.CheckBlocked(old(Abs()))
    {
      ghost var target := SchedulerSpec.CheckBlocked(Abs());
      var node := heads[BLOCKED_LIST];
      var previous := NULL;
      ghost var kept: seq<int>, rest := [], lists[BLOCKED_LIST];
      assert Linked(memory, heads[BLOCKED_LIST], lists[BLOCKED_LIST]);
      while node != NULL
        invariant Chained() && UnblockedSoFar(Abs(), kept, rest)
        invariant node == HeadOf(rest) && previous == LastOf(kept)
        invariant Unblock(WithBlocked(Abs(), kept), rest) == target
        decreases |rest|
      {
        previous, node, kept := CheckBlockedNode(previous, node, kept, rest);
        rest := rest[1..];
      }
      ListEnds(BLOCKED_LIST, |kept|);
      AllKept(Abs(), kept, rest);
    }

    /** One turn of the loop of checkBlocked. */
    method CheckBlockedNode(previous: int, node: int, ghost kept: seq<int>, ghost rest: seq<int>)
      returns (previous': int, node': int, ghost kept': seq<int>)
      requires Chained() && UnblockedSoFar(Abs(), kept, rest) && rest != []
      requires node == rest[0] && previous == LastOf(kept)
      modifies this`memory, this`heads, this`lists
      ensures Chained() && UnblockedSoFar(Abs(), kept', rest[1..])
      ensures node' == HeadOf(rest[1..]) && previous' == LastOf(kept')
      ensures Unblock(WithBlocked(Abs(), kept'), rest[1..]) == old(Unblock(WithBlocked(Abs(), kept), rest))
    {
      UnblockOne(Abs(), kept, rest);
      node' := NextNode(BLOCKED_LIST, node, |kept|);
      if memory[node].pcb.state != BLOCKED {
        MakeReady(previous, node, |kept|);
        previous', kept' := previous, kept;
      } else {
        previous', kept' := node, kept + [node];
      }
    }

    /** Following next from position k of list i. */
    method NextNode(i: nat, node: int, ghost k: nat) returns (next: int)
      requires Chained() && i < LISTS && k < |lists[i]| && node == lists[i][k]
      ensures node in memory && node != NULL && next == NextOf(lists[i], k)
    {
      assert Linked(memory, heads[i], lists[i]);
      next := memory[node].next;
    }

    /** Takes the node at position k out of the blocked list and puts it in its ready queue. */
    method MakeReady(previous: int, node: int, ghost k: nat)
      requires Chained() && k < |lists[BLOCKED_LIST]| && node == lists[BLOCKED_LIST][k]
      requires previous == if k == 0 then NULL else lists[BLOCKED_LIST][k - 1]
      modifies this`memory, this`heads, this`lists
      ensures old(node in memory)
      ensures Chained() && Abs() == SchedulerSpec.InsertInQueue(Unlinked(old(Abs()), BLOCKED_LIST, k), node)
    {
      assert Linked(memory, heads[BLOCKED_LIST], lists[BLOCKED_LIST]);
      Unlink(BLOCKED_LIST, previous, node, k);
      InsertInQueue(node);
    }
  
    /** The loop of getEntry over one list. */
    method FindInList(i: nat, pid: nat) returns (found: int)
      requires Chained() && Shaped(Abs()) && i < LISTS
      ensures match SchedulerSpec.FindInList(BlocksOf(memory), lists[i], pid, 0)
        case None => found == NULL
        case Some(p) => found == p && p != NULL
    {
      ghost var list := lists[i];
      assert Linked(memory, heads[i], list);
      found := heads[i];
      ghost var k := 0;
      while found != NULL
        invariant 0 <= k <= |list| && found == if k < |list| then list[k] else NULL
        invariant SchedulerSpec.FindInList(BlocksOf(memory), list, pid, 0) ==
          SchedulerSpec.FindInList(BlocksOf(memory), list, pid, k)
        decreases |list| - k
      {
        if memory[found].pcb.id == pid {
          return found;
        }
        found := memory[found].next;
        k := k + 1;
      }
    }

    /** getEntry: NULL for a pid that is neither current's nor queued. */
    method GetEntry(pid: nat) returns (found: int)
      requires Chained() && Shaped(Abs()) && current != NULL
      ensures match SchedulerSpec.GetEntry(Abs(), pid)
        case None => found == NULL
        case Some(p) => found == p && p in memory && p != NULL
    {
      if memory[current].pcb.id == pid {
        return current;
      }
      var i := 0;
      while i < LISTS
        invariant 0 <= i <= LISTS
        invariant FindInQueues(Abs(), pid, 0) == FindInQueues(Abs(), pid, i)
      {
        found := FindInList(i, pid);
        if found != NULL {
          return found;
        }
        i := i + 1;
      }
      return NULL;
    }

    /** The inner loop of removeFromQueue: list i is searched from its head. */
    method RemoveFromList(i: nat, pid: nat) returns (toRemove: int, ghost k: nat)
      requires Chained() && Shaped(Abs()) && i < LISTS
      modifies this`memory, this`heads, this`lists
      ensures Chained() && k <= |old(lists[i])| && (toRemove != NULL <==> k < |old(lists[i])|)
      ensures forall j | 0 <= j < k :: old(Abs()).pcb[old(lists[i])[j]].id != pid
      ensures toRemove == NULL ==> Abs() == old(Abs())
      ensures toRemove != NULL ==> toRemove == old(lists[i])[k] && old(Abs()).pcb[toRemove].id == pid
      ensures toRemove != NULL ==> Abs() == Unlinked(old(Abs()), i, k) && !In(toRemove, lists)
    {
      ghost var list := lists[i];
      assert Linked(memory, heads[i], list);
      var previous := NULL;
      toRemove, k := heads[i], 0;
      while toRemove != NULL
        invariant 0 <= k <= |list| && toRemove == if k < |list| then list[k] else NULL
        invariant previous == if k == 0 then NULL else list[k - 1]
        invariant forall j | 0 <= j < k :: memory[list[j]].pcb.id != pid
        decreases |list| - k
      {
        if memory[toRemove].pcb.id == pid {
          Unlink(i, previous, toRemove, k);
          ClearNext(toRemove);
          return;
        }
        previous := toRemove;
        toRemove := memory[toRemove].next;
        k := k + 1;
      }
      ListEnds(i, k);
    }

    /** removeFromQueue: the first queued process of that pid is unlinked, and no other moves. */
    method RemoveFromQueue(pid: nat) returns (toRemove: int)
      requires Chained() && Shaped(Abs())
      modifies this`memory, this`heads, this`lists
      ensures Chained()
      ensures toRemove == NULL <==> old(FindInQueues(Abs(), pid, 0)) == None
      ensures toRemove == NULL ==> Abs() == old(Abs())
      ensures toRemove != NULL ==> FindInQueues(old(Abs()), pid, 0) == Some(toRemove) && !In(toRemove, lists)
      ensures toRemove != NULL ==> toRemove in old(Bag(Abs())) && Bag(Abs()) == old(Bag(Abs())) - multiset{toRemove}
    {
      var i := 0;
      while i < LISTS
        invariant 0 <= i <= LISTS && Chained() && Abs() == old(Abs())
        invariant FindInQueues(Abs(), pid, 0) == FindInQueues(Abs(), pid, i)
      {
        ghost var s := Abs();
        ghost var k;
        toRemove, k := RemoveFromList(i, pid);
        FoundAt(s, i, pid, k);
        if toRemove != NULL {
          UnlinkedBag(s, i, k);
          return;
        }
        i := i + 1;
      }
      toRemove := NULL;
    }

    /** checkChilds */
    method CheckChilds(toDelete: int)
      requires Chained() && Shaped(Abs()) && current != NULL && toDelete in memory
      modifies this`memory
      ensures Chained() && Abs() == SchedulerSpec.CheckChilds(old(Abs()), toDelete)
    {
      var parent := GetEntry(memory[toDelete].pcb.parentId);
      if parent != NULL {
        AdoptAll(memory[toDelete].pcb.childsIds, memory[parent].pcb.id);
      }
    }

    /** The loop of checkChilds over the slots. */
    method AdoptAll(slots: seq<nat>, parentId: nat)
      requires Chained() && Shaped(Abs()) && current != NULL
      modifies this`memory
      ensures Chained() && Abs() == Adopt(old(Abs()), slots, parentId)
    {
      var i := 0;
      while i < |slots|
        invariant 0 <= i <= |slots| && Chained() && Shaped(Abs())
        invariant Adopt(Abs(), slots[i..], parentId) == Adopt(old(Abs()), slots, parentId)
      {
        if slots[i] != 0 {
          var child := GetEntry(slots[i]);
          if child != NULL {
            SetBlock(child, memory[child].pcb.(parentId := parentId));
          }
        }
        i := i + 1;
      }
    }

    /** setParentReady */
    method SetParentReady(toDelete: int)
      requires Chained() && Shaped(Abs()) && current != NULL && toDelete in memory
      modifies this`memory
      ensures Chained() && Abs() == SchedulerSpec.SetParentReady(old(Abs()), toDelete)
    {
      var id := memory[toDelete].pcb.id;
      var parent := GetEntry(memory[toDelete].pcb.parentId);
      if parent != NULL {
        var slots := ClearSlots(memory[parent].pcb.childsIds, id);
        SetBlock(parent, memory[parent].pcb.(childsIds := slots, state := READY));
      }
    }

    /** The loop of setParentReady over the slots of the parent. */
    method ClearSlots(childsIds: seq<nat>, id: nat) returns (slots: seq<nat>)
      ensures slots == Cleared(childsIds, id)
    {
      slots := childsIds;
      var i := 0;
      while i < |slots|
        invariant 0 <= i <= |slots| == |childsIds|
        invariant forall k | 0 <= k < i :: slots[k] == Cleared(childsIds, id)[k]
        invariant forall k | i <= k < |slots| :: slots[k] == childsIds[k]
      {
        if slots[i] == id {
          slots := slots[i := 0];
        }
        i := i + 1;
      }
    }

    /** deleteProcess, as far as parents and children go. */
    method DeleteProcess(toDelete: int)
      requires Chained() && Shaped(Abs()) && current != NULL && toDelete in memory
      modifies this`memory
      ensures Chained() && Abs() == SchedulerSpec.DeleteProcess(old(Abs()), toDelete)
    {
      CheckChilds(toDelete);
      SetParentReady(toDelete);
    }

    /** checkExited over list i. */
    method SweepList(i: nat)
      requires Chained() && Shaped(Abs()) && current != NULL && i < LISTS
      modifies this`memory, this`heads, this`lists
      ensures Chained() && Abs() == SchedulerSpec.SweepList(old(Abs()), i, 0)
    {
      ghost var target := SchedulerSpec.SweepList(Abs(), i, 0);
      var auxCurrent, previous := heads[i], NULL;
      ghost var k := 0;
      assert Linked(memory, heads[i], lists[i]);
      while auxCurrent != NULL
        invariant Chained() && Shaped(Abs()) && 0 <= k <= |lists[i]|
        invariant auxCurrent == if k < |lists[i]| then lists[i][k] else NULL
        invariant previous == if k == 0 then NULL else lists[i][k - 1]
        invariant SchedulerSpec.SweepList(Abs(), i, k) == target
        decreases |lists[i]| - k
      {
        var next := NextNode(i, auxCurrent, k);
        if memory[auxCurrent].pcb.state == EXITED {
          RemoveExited(i, previous, auxCurrent, k);
        } else {
          previous := auxCurrent;
          k := k + 1;
        }
        auxCurrent := next;
      }
      ListEnds(i, k);
    }

    lemma ListEnds(i: nat, k: nat)
      requires Chained() && i < LISTS && k <= |lists[i]|
      requires NULL == if k < |lists[i]| then lists[i][k] else NULL
      ensures k == |lists[i]|
    {
      assert Linked(memory, heads[i], lists[i]);
    }

    /** Unlinks and deletes an exited process. */
    method RemoveExited(i: nat, previous: int, toRemove: int, ghost k: nat)
      requires Chained() && Shaped(Abs()) && current != NULL && i < LISTS
      requires k < |lists[i]| && toRemove == lists[i][k]
      requires previous == if k == 0 then NULL else lists[i][k - 1]
      modifies this`memory, this`heads, this`lists
      ensures Chained() && Abs() == SchedulerSpec.DeleteProcess(Unlinked(old(Abs()), i, k), toRemove)
      ensures Shaped(Abs())
    {
      Unlink(i, previous, toRemove, k);
      DeleteProcess(toRemove);
    }

    /** checkExited */
    method CheckExited()
      requires Valid()
      modifies this
      ensures Valid() && Abs() == SchedulerSpec.CheckExited(old(Abs()))
    {
      ghost var s := Abs();
      var i := 0;
      while i < LISTS
        invariant 0 <= i <= LISTS && Chained() && Shaped(Abs()) && current == old(current)
        invariant Sweep(Abs(), i) == Sweep(s, 0)
      {
        SweepList(i);
        i := i + 1;
      }
      SweepBag(s, 0);
      CheckExitedStep(s);
      if memory[current].pcb.state == EXITED {
        DeleteProcessBag(Abs(), current);
        DeleteProcess(current);
        CheckBlockedBag(Abs());
        CheckBlocked();
        NextProcess();
      }
    }

    /** nextProcess */
    method NextProcess()
      requires Valid()
      modifies this
      ensures Valid() && Abs() == SchedulerSpec.NextProcess(old(Abs()))
    {
      ghost var s := Abs();
      NextProcessStep(s);
      RequeueCurrent();
      RequeueQueued(s);
      DispatchNext();
    }

    /** The switch at the head of nextProcess; for idle the state read through NULL selects no case. */
    method RequeueCurrent()
      requires Valid()
      modifies this`memory, this`heads, this`lists
      ensures Chained() && Abs() == Requeue(old(Abs()))
    {
      CurrentIsNotQueued();
      if memory[current].pcb.id == memory[idle].pcb.id {
        SetBlock(current, memory[current].pcb.(state := READY));
      } else {
        match memory[current].pcb.state
        case BLOCKED =>
          InsertTail(BLOCKED_LIST, current);
        case RUNNING =>
          SetBlock(current, memory[current].pcb.(state := READY));
          InsertInQueue(current);
        case YIELDED =>
          SetBlock(current, memory[current].pcb.(state := READY));
          InsertTail(5, current);
        case READY =>
          if requeuesReady { InsertInQueue(current); }
        case EXITED =>
      }
    }

    lemma CurrentIsNotQueued()
      requires Valid()
      ensures current != idle ==> !In(current, lists)
      ensures memory[current].pcb.id == memory[idle].pcb.id <==> current == idle
    {
      if current != idle {
        assert current in Bag(Abs());
        if In(current, lists) {
          var i, k :| 0 <= i < |lists| && 0 <= k < |lists[i]| && lists[i][k] == current;
          InQueued(lists, i, k);
        }
      }
    }

    /** The rest of nextProcess: the first process of the first non-empty ready queue, or idle. */
    method DispatchNext()
      requires Chained() && Shaped(Abs()) && idle != NULL
      modifies this
      ensures Chained() && Abs() == Dispatch(old(Abs())) && current != NULL
    {
      var next := NULL;
      var i := 0;
      while i < BLOCKED_LIST
        invariant 0 <= i <= BLOCKED_LIST && next == NULL
        invariant FirstReady(lists, 0) == FirstReady(lists, i)
      {
        assert Linked(memory, heads[i], lists[i]);
        next := heads[i];
        if next != NULL {
          TakeHead(i, next);
          return;
        }
        i := i + 1;
      }
      SetBlock(idle, memory[idle].pcb.(agingInterval := 0, quantums := 1, state := RUNNING));
      current := idle;
    }

    /** Makes the head of list i the running process. */
    method TakeHead(i: nat, next: int)
      requires Chained() && Shaped(Abs()) && i < BLOCKED_LIST && lists[i] != [] && next == lists[i][0]
      modifies this
      ensures Chained() && current == next && next != NULL
      ensures Abs() == SchedulerSpec.SetState(
        old(Abs()).(current := next, queues := old(lists)[i := old(lists)[i][1..]]), next, RUNNING)
    {
      assert lists[i][..0] + lists[i][0 + 1..] == lists[i][1..];
      assert Linked(memory, heads[i], lists[i]);
      Unlink(i, NULL, next, 0);
      current := next;
      SetBlock(current, memory[current].pcb.(state := RUNNING));
      ClearNext(current);
    }

    /** current->next = NULL, for a node in no list. */
    method ClearNext(node: int)
      requires Chained() && node in memory && !In(node, lists)
      modifies this`memory
      ensures Chained() && Abs() == old(Abs())
    {
      ghost var m := memory;
      memory := memory[node := memory[node].(next := NULL)];
      forall i | 0 <= i < LISTS ensures Linked(memory, heads[i], lists[i]) {
        assert Linked(m, heads[i], lists[i]);
      }
      assert BlocksOf(memory) == BlocksOf(m);
    }
  }

  /** The due timers from i on, one first. */
  lemma WakeTurn(s: Sched, due: seq<int>, i: nat)
    requires Shaped(s) && i < |due|
    ensures Wake(s, due[i..]) == Wake(Wake(s, [due[i]]), due[i + 1..])
    ensures Wake(s, [due[i]]) ==
      if due[i] in s.pcb && s.pcb[due[i]].state != EXITED then SchedulerSpec.SetState(s, due[i], READY) else s
  {
    assert due[i..][1..] == due[i + 1..] && [due[i]][1..] == [];
  }

  function LastOf(list: seq<int>): int { if list == [] then NULL else list[|list| - 1] }

  /** s with the given blocked list. */
  function WithBlocked(s: Sched, blocked: seq<int>): Sched
    requires |s.queues| == LISTS
  {
    s.(queues := s.queues[BLOCKED_LIST := blocked])
  }

  ghost predicate UnblockedSoFar(s: Sched, kept: seq<int>, rest: seq<int>) {
    && Shaped(s) && s.queues[BLOCKED_LIST] == kept + rest
    && (forall k | 0 <= k < |kept| :: kept[k] in s.pcb) && (forall k | 0 <= k < |rest| :: rest[k] in s.pcb)
  }

  lemma AllKept(s: Sched, kept: seq<int>, rest: seq<int>)
    requires UnblockedSoFar(s, kept, rest) && rest == []
    ensures Unblock(WithBlocked(s, kept), rest) == s
  {
    assert kept + rest == kept;
    assert s.queues[BLOCKED_LIST := kept] == s.queues;
  }

  /** One turn of checkBlocked is one turn of its specification. */
  lemma UnblockOne(s: Sched, kept: seq<int>, rest: seq<int>)
    requires UnblockedSoFar(s, kept, rest) && rest != []
    ensures s.pcb[rest[0]].state != BLOCKED ==>
      var s' := SchedulerSpec.InsertInQueue(Unlinked(s, BLOCKED_LIST, |kept|), rest[0]);
      && UnblockedSoFar(s', kept, rest[1..])
      && Unblock(WithBlocked(s, kept), rest) == Unblock(WithBlocked(s', kept), rest[1..])
    ensures s.pcb[rest[0]].state == BLOCKED ==>
      && UnblockedSoFar(s, kept + [rest[0]], rest[1..])
      && Unblock(WithBlocked(s, kept), rest) == Unblock(WithBlocked(s, kept + [rest[0]]), rest[1..])
  {
    if s.pcb[rest[0]].state != BLOCKED {
      var u := Unlinked(s, BLOCKED_LIST, |kept|);
      assert u.queues[BLOCKED_LIST] == kept + rest[1..];
      var s' := SchedulerSpec.InsertInQueue(u, rest[0]);
      assert s'.queues[BLOCKED_LIST] == kept + rest[1..];
      assert WithBlocked(s', kept) == SchedulerSpec.InsertInQueue(WithBlocked(s, kept), rest[0]);
    } else {
      assert kept + rest == kept + [rest[0]] + rest[1..];
      assert WithBlocked(s, kept + [rest[0]]) == Append(WithBlocked(s, kept), BLOCKED_LIST, rest[0]);
    }
  }

  /** FindInList answers with the first process of that pid. */
  lemma FoundAt(s: Sched, i: nat, pid: nat, k: nat)
    requires Shaped(s) && i < LISTS && k <= |s.queues[i]|
    requires forall j | 0 <= j < k :: s.pcb[s.queues[i][j]].id != pid
    requires k < |s.queues[i]| ==> s.pcb[s.queues[i][k]].id == pid
    ensures SchedulerSpec.FindInList(s.pcb, s.queues[i], pid, 0) ==
      if k < |s.queues[i]| then Some(s.queues[i][k]) else None
  {
    FoundFrom(s.pcb, s.queues[i], pid, 0, k);
  }

  lemma {:induction false} FoundFrom(pcb: map<int, PCB>, list: seq<int>, pid: nat, j: nat, k: nat)
    requires j <= k <= |list| && forall l | 0 <= l < |list| :: list[l] in pcb
    requires forall l | j <= l < k :: pcb[list[l]].id != pid
    requires k < |list| ==> pcb[list[k]].id == pid
    ensures SchedulerSpec.FindInList(pcb, list, pid, j) == if k < |list| then Some(list[k]) else None
    decreases k - j
  {
    if j < k { FoundFrom(pcb, list, pid, j + 1, k); }
  }

  lemma AppendLinked(m: Memory, heads: seq<int>, lists: seq<seq<int>>, m': Memory, heads': seq<int>, i: nat, node: int)
    requires AllLinked(m, heads, lists) && Injective(lists) && i < LISTS
    requires node in m && node != NULL && !In(node, lists)
    requires var list := lists[i];
      && heads' == (if list == [] then heads[i := node] else heads)
      && var m1 := if list == [] then m else m[list[|list| - 1] := m[list[|list| - 1]].(next := node)];
         m' == m1[node := m1[node].(next := NULL)]
    ensures AllLinked(m', heads', lists[i := lists[i] + [node]]) && Injective(lists[i := lists[i] + [node]])
  {
    var list, lists' := lists[i], lists[i := lists[i] + [node]];
    assert forall j, k | 0 <= j < |lists| && 0 <= k < |lists[j]| :: lists[j][k] != node;
    forall j | 0 <= j < LISTS ensures Linked(m', heads'[j], lists'[j]) {
      assert Linked(m, heads[j], lists[j]);
    }
  }

  lemma UnlinkLinked(m: Memory, heads: seq<int>, lists: seq<seq<int>>, m': Memory, heads': seq<int>, i: nat, k: nat)
    requires AllLinked(m, heads, lists) && Injective(lists) && i < LISTS && k < |lists[i]|
    requires var list := lists[i];
      && list[k] in m
      && (k > 0 ==> list[k - 1] in m)
      && heads' == (if k == 0 then heads[i := m[list[k]].next] else heads)
      && m' == if k == 0 then m else m[list[k - 1] := m[list[k - 1]].(next := m[list[k]].next)]
    ensures var lists' := lists[i := lists[i][..k] + lists[i][k + 1..]];
      AllLinked(m', heads', lists') && Injective(lists') && !In(lists[i][k], lists')
  {
    var list := lists[i];
    var list' := list[..k] + list[k + 1..];
    var lists' := lists[i := list'];
    assert forall l, l2 | 0 <= l < |list| && 0 <= l2 < |list| && list[l] == list[l2] :: l == l2;
    forall j | 0 <= j < LISTS ensures Linked(m', heads'[j], lists'[j]) {
      assert Linked(m, heads[j], lists[j]);
      if j == i {
        UnlinkOne(m, heads[i], list, m', heads'[i], k);
      }
    }
    UnlinkInjective(lists, i, k);
  }

  lemma UnlinkOne(m: Memory, head: int, list: seq<int>, m': Memory, head': int, k: nat)
    requires Linked(m, head, list) && k < |list|
    requires forall l, l2 | 0 <= l < |list| && 0 <= l2 < |list| && list[l] == list[l2] :: l == l2
    requires head' == if k == 0 then m[list[k]].next else head
    requires m' == if k == 0 then m else m[list[k - 1] := m[list[k - 1]].(next := m[list[k]].next)]
    ensures Linked(m', head', list[..k] + list[k + 1..])
  {
    var list' := list[..k] + list[k + 1..];
    forall l | 0 <= l < |list'| ensures list'[l] != NULL && list'[l] in m' && m'[list'[l]].next == NextOf(list', l) {
      var l' := if l < k then l else l + 1;
      assert list'[l] == list[l'];
      assert m[list[l']].next == NextOf(list, l') && m[list[k]].next == NextOf(list, k);
    }
  }

  lemma UnlinkInjective(lists: seq<seq<int>>, i: nat, k: nat)
    requires Injective(lists) && i < |lists| && k < |lists[i]|
    ensures var lists' := lists[i := lists[i][..k] + lists[i][k + 1..]];
      Injective(lists') && !In(lists[i][k], lists')
  {
    var list' := lists[i][..k] + lists[i][k + 1..];
    var lists' := lists[i := list'];
    assert forall l | 0 <= l < |list'| :: list'[l] == lists[i][if l < k then l else l + 1];
    forall j, l | 0 <= j < |lists'| && 0 <= l < |lists'[j]|
      ensures lists'[j][l] == lists[j][if j == i && l >= k then l + 1 else l]
    {
    }
  }
}
