/** Parents, children and pids: exactly what a fork and a deletion change, and of whom. */
module SchedulerFamily {
  import opened Options
  import opened SchedulerSpec
  import opened SchedulerPopulation
  import opened SchedulerSwitch

  // ---------- Finding a process by its pid ----------

  /** The process is running or in one of the lists. */
  ghost predicate Present(s: Sched, p: int) { p == s.current || p in Queued(s.queues) }

  lemma PresentIsOne(s: Sched, p: int, q: int)
    requires Once(s) && Present(s, p) && Present(s, q) && s.pcb[p].id == s.pcb[q].id
    ensures p == q
  {
    assert p == s.idle || p in Bag(s);
    assert q == s.idle || q in Bag(s);
  }

  lemma {:induction false} FoundInQueues(s: Sched, pid: nat, i: nat)
    requires Shaped(s) && i <= 7
    ensures match FindInQueues(s, pid, i)
      case Some(p) => p in Queued(s.queues)
      case None => forall j, k | i <= j < 7 && 0 <= k < |s.queues[j]| :: s.pcb[s.queues[j][k]].id != pid
    decreases 7 - i
  {
    if i < 7 {
      FoundInQueues(s, pid, i + 1);
      match FindInList(s.pcb, s.queues[i], pid, 0)
      case Some(p) =>
        var k :| 0 <= k < |s.queues[i]| && s.queues[i][k] == p;
        InQueued(s.queues, i, k);
      case None =>
    }
  }

  /** getEntry finds the one process of that pid that is running or in a list, and no other. */
  lemma GetEntryFinds(s: Sched, pid: nat, p: int)
    requires Once(s)
    ensures GetEntry(s, pid) == Some(p) <==> Present(s, p) && p in s.pcb && s.pcb[p].id == pid
  {
    FoundInQueues(s, pid, 0);
    if Present(s, p) && p in s.pcb && s.pcb[p].id == pid {
      if p in Queued(s.queues) { var i, k := QueuedIsSomewhere(s.queues, p); }
      PresentIsOne(s, p, GetEntry(s, pid).value);
    }
  }

  // ---------- Deleting a process ----------

  predicate Listed(slots: seq<nat>, id: nat) { id != 0 && id in slots }

  lemma SameIdsOnce(s: Sched, r: Sched)
    requires Once(s) && r == s.(pcb := r.pcb) && r.pcb.Keys == s.pcb.Keys
    requires forall p | p in s.pcb :: r.pcb[p].id == s.pcb[p].id
    ensures Once(r)
  {
    UniquePreserved(Bag(s), Bag(r), s.pcb, r.pcb, s.idle);
  }

  /** What adoption makes of a process that is there, and of one that is not. */
  function AdoptedBlock(q: PCB, slots: seq<nat>, parentId: nat): PCB {
    if Listed(slots, q.id) then q.(parentId := parentId) else q
  }

  lemma AdoptOne(s: Sched, slots: seq<nat>, parentId: nat, p: int) returns (r: Sched)
    requires Once(s) && slots != [] && p in s.pcb
    ensures Once(r) && r == s.(pcb := r.pcb) && r.pcb.Keys == s.pcb.Keys
    ensures Adopt(s, slots, parentId) == Adopt(r, slots[1..], parentId)
    ensures r.pcb[p] ==
      if Present(s, p) && slots[0] != 0 && s.pcb[p].id == slots[0] then s.pcb[p].(parentId := parentId) else s.pcb[p]
  {
    var child := if slots[0] == 0 then None else GetEntry(s, slots[0]);
    GetEntryFinds(s, slots[0], p);
    r := if child.Some? then SetParent(s, child.value, parentId) else s;
    SameIdsOnce(s, r);
  }

  lemma {:induction false} AdoptIs(s: Sched, slots: seq<nat>, parentId: nat, p: int)
    requires Once(s) && p in s.pcb
    ensures Adopt(s, slots, parentId).pcb[p] ==
      if Present(s, p) then AdoptedBlock(s.pcb[p], slots, parentId) else s.pcb[p]
    decreases |slots|
  {
    if slots != [] {
      var r := AdoptOne(s, slots, parentId, p);
      AdoptIs(r, slots[1..], parentId, p);
    }
  }

  /** Some process that is running or in a list has that pid. */
  ghost predicate HasPid(s: Sched, pid: nat) { exists p :: Present(s, p) && p in s.pcb && s.pcb[p].id == pid }

  lemma HasPidIff(s: Sched, pid: nat)
    requires Once(s)
    ensures HasPid(s, pid) <==> GetEntry(s, pid).Some?
    ensures GetEntry(s, pid).Some? ==> s.pcb[GetEntry(s, pid).value].id == pid
  {
    match GetEntry(s, pid)
    case Some(q) => GetEntryFinds(s, pid, q);
    case None =>
      forall p | Present(s, p) && p in s.pcb && s.pcb[p].id == pid ensures false { GetEntryFinds(s, pid, p); }
  }

  /**
    Deleting a process gives the children in its slots to its parent, if that is still there; the parent
    forgets the process and is READY; nobody else changes.
   */
  lemma DeleteProcessIs(s: Sched, d: int, p: int)
    requires Once(s) && d in s.pcb && p in s.pcb
    ensures var e, q, r := s.pcb[d], s.pcb[p], DeleteProcess(s, d).pcb[p];
      && (Present(s, p) && HasPid(s, e.parentId) ==>
            && r.parentId == (if Listed(e.childsIds, q.id) then e.parentId else q.parentId)
            && r.state == (if q.id == e.parentId then READY else q.state)
            && r.childsIds == (if q.id == e.parentId then Cleared(q.childsIds, e.id) else q.childsIds))
      && (!(Present(s, p) && HasPid(s, e.parentId)) ==> r == q)
      && r == q.(parentId := r.parentId, state := r.state, childsIds := r.childsIds)
  {
    var e := s.pcb[d];
    var s1 := CheckChilds(s, d);
    HasPidIff(s, e.parentId);
    if HasPid(s, e.parentId) {
      AdoptIs(s, e.childsIds, e.parentId, p);
      AdoptIs(s, e.childsIds, e.parentId, d);
      AdoptOnlyReadies(s, e.childsIds, e.parentId);
      SameIdsOnce(s, s1);
      GetEntryFinds(s1, e.parentId, p);
    }
  }

  // ---------- Forking ----------

  /** The slots with the pid in the first empty one. */
  ghost predicate InFirstSlot(slots: seq<nat>, id: nat, r: seq<nat>, k: nat) {
    && k <= |slots| && (forall j | 0 <= j < k :: slots[j] != 0)
    && (k < |slots| ==> slots[k] == 0 && r == slots[k := id])
    && (k == |slots| ==> r == slots + [id])
  }

  lemma {:induction false} AddChildIs(slots: seq<nat>, id: nat) returns (k: nat)
    ensures InFirstSlot(slots, id, AddChild(slots, id), k)
  {
    if slots == [] || slots[0] == 0 {
      k := 0;
    } else {
      k := AddChildIs(slots[1..], id);
      k := k + 1;
    }
  }

  lemma {:induction false} MaxIdIsSomebodys(pcb: map<int, PCB>, list: seq<int>, k: nat, max: nat)
    requires k <= |list| && forall j | 0 <= j < |list| :: list[j] in pcb
    ensures var r := MaxId(pcb, list, k, max); r == max || exists j :: k <= j < |list| && pcb[list[j]].id == r
    decreases |list| - k
  {
    if k < |list| {
      var max' := if pcb[list[k]].id > max then pcb[list[k]].id else max;
      MaxIdIsSomebodys(pcb, list, k + 1, max');
      assert max' == max || pcb[list[k]].id == max';
    }
  }

  lemma {:induction false} MaxIdFromIsSomebodys(s: Sched, i: nat, max: nat)
    requires Shaped(s) && i <= 7 && HasPid(s, max)
    ensures HasPid(s, MaxIdFrom(s, i, max))
    decreases 7 - i
  {
    if i < 7 {
      var m := MaxId(s.pcb, s.queues[i], 0, max);
      MaxIdIsSomebodys(s.pcb, s.queues[i], 0, max);
      if m != max {
        var j :| 0 <= j < |s.queues[i]| && s.pcb[s.queues[i][j]].id == m;
        InQueued(s.queues, i, j);
        assert Present(s, s.queues[i][j]);
      }
      MaxIdFromIsSomebodys(s, i + 1, m);
    }
  }

  /** The new pid is one above the largest of those running and in the lists, or two when that is idle's. */
  lemma UnusedIdIs(s: Sched) returns (max: nat)
    requires Shaped(s)
    ensures HasPid(s, max) && forall p | Present(s, p) :: p in s.pcb && s.pcb[p].id <= max
    ensures UnusedId(s) == if max == 1 then 3 else max + 1
  {
    max := MaxIdFrom(s, 0, s.pcb[s.current].id);
    assert Present(s, s.current);
    MaxIdFromIsSomebodys(s, 0, s.pcb[s.current].id);
    forall p | Present(s, p) ensures p in s.pcb && s.pcb[p].id <= max {
      if p in Queued(s.queues) { var i, k := QueuedIsSomewhere(s.queues, p); }
    }
  }

  /**
    A fork: the child is a copy of its parent under the new pid, last in the queue k of the age it inherits
    with k + 1 quantums; the parent lists it in its first empty slot; nobody else changes.
   */
  lemma ForkIs(s: Sched, p: int, stale: seq<nat>, k: nat) returns (slot: nat)
    requires Shaped(s) && p != s.current && InBand(s.pcb[s.current].agingInterval, k)
    ensures var r, parent := Fork(s, p, stale), s.pcb[s.current];
      && r.current == s.current && r.idle == s.idle && r.queues == s.queues[k := s.queues[k] + [p]]
      && p in r.pcb && r.pcb[p] == PCB(UnusedId(s), parent.state, k + 1, parent.agingInterval, k, parent.id, stale)
      && InFirstSlot(parent.childsIds, UnusedId(s), r.pcb[s.current].childsIds, slot)
      && r.pcb[s.current] == parent.(childsIds := r.pcb[s.current].childsIds)
      && forall q | q in s.pcb && q != p && q != s.current :: r.pcb[q] == s.pcb[q]
  {
    LevelIs(s.pcb[s.current].agingInterval, k);
    slot := AddChildIs(s.pcb[s.current].childsIds, UnusedId(s));
  }
}
