/** When a tick loses the running process, read off the state before the tick. */
module SchedulerDrops {
  import opened Options
  import opened SchedulerSpec
  import opened SchedulerPopulation

  /** The process p is queued and has exited. */
  ghost predicate ExitedInQueue(s: Sched, p: int) {
    p in Queued(s.queues) && p in s.pcb && s.pcb[p].state == EXITED
  }

  /** A queued process that has exited names the running one as its parent. */
  ghost predicate HasExitedChild(s: Sched)
    requires s.current in s.pcb
  {
    exists d :: ExitedInQueue(s, d) && s.pcb[d].parentId == s.pcb[s.current].id
  }

  /** The running process is READY when it is to be switched away, and nothing but that is needed to lose it. */
  ghost predicate WillDrop(s: Sched, due: seq<int>)
    requires Shaped(s)
  {
    var e := s.pcb[s.current];
    && !s.requeuesReady && s.current != s.idle && e.state != EXITED && e.quantums <= 1
    && (e.state == READY || s.current in due || HasExitedChild(s))
  }

  predicate Lists(slots: seq<nat>, id: nat) { id != 0 && id in slots }

  /** The process named q has nothing to do with pid id: not its child, and not listing it as one. */
  predicate Unrelated(q: PCB, id: nat) { q.parentId != id && !Lists(q.childsIds, id) }

  /** No other exited process in a queue could revive d, or give it away to another parent. */
  ghost predicate Alone(s: Sched, d: int) {
    d in s.pcb
    && forall q {:trigger ExitedInQueue(s, q)} | ExitedInQueue(s, q) && q != d ::
         Unrelated(s.pcb[q], s.pcb[d].id)
  }

  predicate IsInState(s: Sched, p: int, state: ProcessState) { p in s.pcb && s.pcb[p].state == state }

  /** The exited children of the running process are no parents of exited processes themselves. */
  ghost predicate NoExitedFamilies(s: Sched)
    requires s.current in s.pcb
  {
    forall d | ExitedInQueue(s, d) && s.pcb[d].parentId == s.pcb[s.current].id :: Alone(s, d)
  }

  // ---------- What one deletion does to a control block ----------

  /** Deleting a process with block q turned block e into e'. */
  predicate Touched(q: PCB, e: PCB, e': PCB) {
    && e'.id == e.id
    && (e'.state == e.state || (e'.state == READY && e.id == q.parentId))
    && (e'.parentId == e.parentId || (e'.parentId == q.parentId && Lists(q.childsIds, e.id)))
    && (e'.childsIds == e.childsIds || e'.childsIds == Cleared(e.childsIds, q.id))
  }

  predicate Adopted(slots: seq<nat>, parentId: nat, e: PCB, e': PCB) {
    e' == e || (e' == e.(parentId := parentId) && Lists(slots, e.id))
  }

  lemma {:induction false} AdoptTouches(s: Sched, slots: seq<nat>, parentId: nat)
    requires Shaped(s)
    ensures var r := Adopt(s, slots, parentId);
      forall p | p in s.pcb :: Adopted(slots, parentId, s.pcb[p], r.pcb[p])
    decreases |slots|
  {
    if slots != [] {
      var child := if slots[0] == 0 then None else GetEntry(s, slots[0]);
      var s' := if child.Some? then SetParent(s, child.value, parentId) else s;
      AdoptTouches(s', slots[1..], parentId);
    }
  }

  lemma CheckChildsTouches(s: Sched, d: int)
    requires Shaped(s) && d in s.pcb
    ensures var r := CheckChilds(s, d);
      forall p | p in s.pcb :: Adopted(s.pcb[d].childsIds, s.pcb[d].parentId, s.pcb[p], r.pcb[p])
  {
    match GetEntry(s, s.pcb[d].parentId)
    case Some(parent) => AdoptTouches(s, s.pcb[d].childsIds, s.pcb[parent].id);
    case None =>
  }

  lemma DeleteTouches(s: Sched, d: int)
    requires Shaped(s) && d in s.pcb
    ensures forall p | p in s.pcb :: Touched(s.pcb[d], s.pcb[p], DeleteProcess(s, d).pcb[p])
  {
    CheckChildsTouches(s, d);
    var s1 := CheckChilds(s, d);
    assert s1.pcb[d].parentId == s.pcb[d].parentId && s1.pcb[d].id == s.pcb[d].id;
    forall p | p in s.pcb ensures Touched(s.pcb[d], s.pcb[p], DeleteProcess(s, d).pcb[p]) {
      assert Adopted(s.pcb[d].childsIds, s.pcb[d].parentId, s.pcb[p], s1.pcb[p]);
    }
  }

  lemma ClearedLists(slots: seq<nat>, gone: nat, id: nat)
    requires !Lists(slots, id)
    ensures !Lists(Cleared(slots, gone), id)
  {
    var r := Cleared(slots, gone);
    if id in r {
      var k :| 0 <= k < |r| && r[k] == id;
    }
  }

  /** Being unrelated to a pid survives the deletion of a process that is. */
  lemma StaysUnrelated(q: PCB, e: PCB, e': PCB, id: nat)
    requires Touched(q, e, e') && Unrelated(q, id) && Unrelated(e, id)
    ensures Unrelated(e', id)
  {
    ClearedLists(e.childsIds, q.id, id);
  }

  // ---------- No exited child: the running process is left alone ----------

  /** Deleting somebody else's child leaves the running process, and the absence of exited children. */
  lemma DeleteSparesCurrent(s: Sched, d: int)
    requires Shaped(s) && d in s.pcb && s.pcb[d].parentId != s.pcb[s.current].id && !HasExitedChild(s)
    ensures !HasExitedChild(DeleteProcess(s, d))
    ensures DeleteProcess(s, d).pcb[s.current].state == s.pcb[s.current].state
  {
    DeleteTouches(s, d);
    var r := DeleteProcess(s, d);
    forall p | ExitedInQueue(r, p) ensures r.pcb[p].parentId != r.pcb[r.current].id {
      assert Touched(s.pcb[d], s.pcb[p], r.pcb[p]);
      assert ExitedInQueue(s, p);
    }
  }

  lemma UnlinkedSparesCurrent(s: Sched, i: nat, k: nat)
    requires Shaped(s) && i < LISTS && k < |s.queues[i]| && s.pcb[s.queues[i][k]].state == EXITED
    requires !HasExitedChild(s)
    ensures !HasExitedChild(Unlinked(s, i, k)) && s.pcb[s.queues[i][k]].parentId != s.pcb[s.current].id
  {
    InQueued(s.queues, i, k);
    assert ExitedInQueue(s, s.queues[i][k]);
    RemoveQueued(s, i, k);
    forall p | ExitedInQueue(Unlinked(s, i, k), p) ensures s.pcb[p].parentId != s.pcb[s.current].id {
      assert ExitedInQueue(s, p);
    }
  }

  lemma {:induction false} SweepListSparesCurrent(s: Sched, i: nat, k: nat)
    requires Shaped(s) && i < LISTS && k <= |s.queues[i]| && !HasExitedChild(s)
    ensures var r := SweepList(s, i, k);
      r.current == s.current && r.pcb[s.current].state == s.pcb[s.current].state && !HasExitedChild(r)
    decreases |s.queues[i]| - k
  {
    if k < |s.queues[i]| {
      if s.pcb[s.queues[i][k]].state == EXITED {
        UnlinkedSparesCurrent(s, i, k);
        DeleteSparesCurrent(Unlinked(s, i, k), s.queues[i][k]);
        SweepListSparesCurrent(DeleteProcess(Unlinked(s, i, k), s.queues[i][k]), i, k);
      } else {
        SweepListSparesCurrent(s, i, k + 1);
      }
    }
  }

  lemma {:induction false} SweepSparesCurrent(s: Sched, i: nat)
    requires Shaped(s) && i <= LISTS && !HasExitedChild(s)
    ensures Sweep(s, i).current == s.current && Sweep(s, i).pcb[s.current].state == s.pcb[s.current].state
    decreases LISTS - i
  {
    if i < LISTS {
      SweepListSparesCurrent(s, i, 0);
      SweepSparesCurrent(SweepList(s, i, 0), i + 1);
    }
  }

  // ---------- An exited child that nobody revives: the running process becomes READY ----------

  /** d has exited, is a child of the running process, and no other exited process interferes. */
  ghost predicate Doomed(s: Sched, d: int)
    requires s.current in s.pcb
  {
    && d in s.pcb && d != s.current && s.pcb[d].state == EXITED
    && s.pcb[d].parentId == s.pcb[s.current].id && s.pcb[d].id != s.pcb[s.current].id
    && Alone(s, d)
  }

  lemma DeletedChildReadies(s: Sched, d: int)
    requires Shaped(s) && d in s.pcb && d != s.current && s.pcb[d].parentId == s.pcb[s.current].id
    ensures DeleteProcess(s, d).pcb[s.current].state == READY
  {
    CheckChildsTouches(s, d);
    assert Adopted(s.pcb[d].childsIds, s.pcb[d].parentId, s.pcb[d], CheckChilds(s, d).pcb[d]);
    assert Adopted(s.pcb[d].childsIds, s.pcb[d].parentId, s.pcb[s.current], CheckChilds(s, d).pcb[s.current]);
  }

  /** Deleting another exited process, already out of its queue, leaves d doomed. */
  lemma StaysDoomed(s: Sched, i: nat, k: nat, d: int)
    requires Shaped(s) && i < LISTS && k < |s.queues[i]| && Doomed(s, d)
    requires s.queues[i][k] != d && s.pcb[s.queues[i][k]].state == EXITED
    ensures Doomed(DeleteProcess(Unlinked(s, i, k), s.queues[i][k]), d)
  {
    var q := s.queues[i][k];
    var u := Unlinked(s, i, k);
    var r := DeleteProcess(u, q);
    InQueued(s.queues, i, k);
    assert ExitedInQueue(s, q) && Unrelated(s.pcb[q], s.pcb[d].id);
    DeleteTouches(u, q);
    assert Touched(s.pcb[q], s.pcb[d], r.pcb[d]) && Touched(s.pcb[q], s.pcb[s.current], r.pcb[s.current]);
    RemoveQueued(s, i, k);
    forall p | ExitedInQueue(r, p) && p != d ensures Unrelated(r.pcb[p], r.pcb[d].id) {
      assert Touched(s.pcb[q], s.pcb[p], r.pcb[p]);
      assert ExitedInQueue(s, p);
      StaysUnrelated(s.pcb[q], s.pcb[p], r.pcb[p], s.pcb[d].id);
    }
  }

  /** The sweep of a list begins by unlinking and deleting the exited process at its position. */
  lemma FirstSwept(s: Sched, i: nat, k: nat) returns (r: Sched)
    requires Once(s) && i < LISTS && k < |s.queues[i]| && s.pcb[s.queues[i][k]].state == EXITED
    ensures r == DeleteProcess(Unlinked(s, i, k), s.queues[i][k])
    ensures Once(r) && r.current == s.current && |r.queues[i]| == |s.queues[i]| - 1
    ensures r.queues == Unlinked(s, i, k).queues && SweepList(s, i, k) == SweepList(r, i, k)
  {
    r := DeleteProcess(Unlinked(s, i, k), s.queues[i][k]);
    UnlinkBag(s, i, k);
    DeleteProcessBag(Unlinked(s, i, k), s.queues[i][k]);
  }

  /** If that stands before d in its queue, d stays doomed. */
  lemma SweptBefore(s: Sched, i: nat, k: nat, l: nat, d: int) returns (r: Sched)
    requires Once(s) && i < LISTS && k < l < |s.queues[i]| && s.pcb[s.queues[i][k]].state == EXITED
    requires s.queues[i][l] == d && Doomed(s, d)
    ensures Once(r) && Doomed(r, d) && r.current == s.current
    ensures |r.queues[i]| == |s.queues[i]| - 1 && r.queues[i][l - 1] == d
    ensures SweepList(s, i, k) == SweepList(r, i, k)
  {
    r := FirstSwept(s, i, k);
    InOnePlace(s, i, k, i, l);
    StaysDoomed(s, i, k, d);
  }

  /** Nor does it matter to d in another queue. */
  lemma SweptElsewhere(s: Sched, i: nat, k: nat, j: nat, d: int) returns (r: Sched)
    requires Once(s) && i < j < LISTS && k < |s.queues[i]| && s.pcb[s.queues[i][k]].state == EXITED
    requires d in s.queues[j] && Doomed(s, d)
    ensures Once(r) && Doomed(r, d) && r.current == s.current
    ensures |r.queues[i]| == |s.queues[i]| - 1 && r.queues[j] == s.queues[j]
    ensures SweepList(s, i, k) == SweepList(r, i, k)
  {
    r := FirstSwept(s, i, k);
    var l :| 0 <= l < |s.queues[j]| && s.queues[j][l] == d;
    InOnePlace(s, i, k, j, l);
    StaysDoomed(s, i, k, d);
  }

  lemma SweepKeepsReady(s: Sched, i: nat, k: nat)
    requires Once(s) && i < LISTS && k <= |s.queues[i]| && IsInState(s, s.current, READY)
    ensures IsInState(SweepList(s, i, k), s.current, READY) && SweepList(s, i, k).current == s.current
  {
    SweepListBag(s, i, k);
  }

  lemma SweepReadiesNow(s: Sched, i: nat, k: nat)
    requires Once(s) && i < LISTS && k < |s.queues[i]| && Doomed(s, s.queues[i][k])
    ensures IsInState(SweepList(s, i, k), s.current, READY) && SweepList(s, i, k).current == s.current
  {
    var r := FirstSwept(s, i, k);
    DeletedChildReadies(Unlinked(s, i, k), s.queues[i][k]);
    SweepKeepsReady(r, i, k);
  }

  lemma {:induction false} SweepListReadies(s: Sched, i: nat, k: nat, d: int, l: nat)
    requires Once(s) && i < LISTS && k <= l < |s.queues[i]| && s.queues[i][l] == d && Doomed(s, d)
    ensures IsInState(SweepList(s, i, k), s.current, READY) && SweepList(s, i, k).current == s.current
    decreases |s.queues[i]| - k, 1
  {
    if k == l {
      SweepReadiesNow(s, i, k);
    } else if s.pcb[s.queues[i][k]].state == EXITED {
      SweepReadiesLater(s, i, k, d, l);
    } else {
      SweepListReadies(s, i, k + 1, d, l);
    }
  }

  lemma {:induction false} SweepReadiesLater(s: Sched, i: nat, k: nat, d: int, l: nat)
    requires Once(s) && i < LISTS && k < l < |s.queues[i]| && s.queues[i][l] == d && Doomed(s, d)
    requires s.pcb[s.queues[i][k]].state == EXITED
    ensures IsInState(SweepList(s, i, k), s.current, READY) && SweepList(s, i, k).current == s.current
    decreases |s.queues[i]| - k, 0
  {
    var r := SweptBefore(s, i, k, l, d);
    SweepListReadies(r, i, k, d, l - 1);
  }

  lemma TakenOut(list: seq<int>, k: nat)
    requires k < |list|
    ensures multiset(list) == multiset(list[..k] + list[k + 1..]) + multiset{list[k]}
  {
    assert list == list[..k] + [list[k]] + list[k + 1..];
  }

  /** A process found in two places is counted twice. */
  lemma CountedTwice(queues: seq<seq<int>>, i: nat, k: nat, j: nat, l: nat)
    requires i < |queues| && k < |queues[i]| && j < |queues| && l < |queues[j]|
    requires queues[i][k] == queues[j][l] && (i != j || k < l)
    ensures Queued(queues)[queues[i][k]] >= 2
  {
    var list := queues[i][..k] + queues[i][k + 1..];
    var rest := queues[i := list];
    QueuedUpdate(queues, i, list);
    TakenOut(queues[i], k);
    InQueued(rest, j, if i == j then l - 1 else l);
  }

  lemma InOnePlace(s: Sched, i: nat, k: nat, j: nat, l: nat)
    requires Once(s) && i < LISTS && k < |s.queues[i]| && j < LISTS && l < |s.queues[j]| && (i != j || k < l)
    ensures s.queues[i][k] != s.queues[j][l]
  {
    if s.queues[i][k] == s.queues[j][l] {
      CountedTwice(s.queues, i, k, j, l);
      InQueued(s.queues, i, k);
      assert false;
    }
  }

  lemma {:induction false} SweepListPasses(s: Sched, i: nat, k: nat, d: int, j: nat)
    requires Once(s) && i < j < LISTS && k <= |s.queues[i]| && d in s.queues[j] && Doomed(s, d)
    ensures var r := SweepList(s, i, k);
      r.queues[j] == s.queues[j] && r.current == s.current && Once(r) && Doomed(r, d)
    decreases |s.queues[i]| - k
  {
    if k < |s.queues[i]| {
      if s.pcb[s.queues[i][k]].state == EXITED {
        var r := SweptElsewhere(s, i, k, j, d);
        SweepListPasses(r, i, k, d, j);
      } else {
        SweepListPasses(s, i, k + 1, d, j);
      }
    }
  }

  lemma {:induction false} SweepReadies(s: Sched, i: nat, d: int, j: nat, l: nat)
    requires Once(s) && i <= j < LISTS && l < |s.queues[j]| && s.queues[j][l] == d && Doomed(s, d)
    ensures IsInState(Sweep(s, i), s.current, READY) && Sweep(s, i).current == s.current
    decreases LISTS - i
  {
    if i == j {
      SweepListReadies(s, i, 0, d, l);
      SweepListBag(s, i, 0);
      SweepBag(SweepList(s, i, 0), i + 1);
    } else {
      SweepListPasses(s, i, 0, d, j);
      SweepReadies(SweepList(s, i, 0), i + 1, d, j, l);
    }
  }

  // ---------- The tick ----------

  lemma {:induction false} UnblockKeepsOthers(s: Sched, rest: seq<int>, p: int)
    requires Shaped(s) && p in s.pcb && p !in rest && forall k | 0 <= k < |rest| :: rest[k] in s.pcb
    ensures p in Unblock(s, rest).pcb && Unblock(s, rest).pcb[p] == s.pcb[p]
    decreases |rest|
  {
    if rest != [] {
      UnblockKeepsOthers(if s.pcb[rest[0]].state != BLOCKED then InsertInQueue(s, rest[0])
                         else Append(s, BLOCKED_LIST, rest[0]), rest[1..], p);
    }
  }

  lemma CurrentIsNotQueued(s: Sched, i: nat, k: nat)
    requires Once(s) && s.current != s.idle && i < LISTS && k < |s.queues[i]|
    ensures s.queues[i][k] != s.current
  {
    var x := s.queues[i][k];
    InQueued(s.queues, i, k);
    assert x in Bag(s) && Bag(s)[x] == Queued(s.queues)[x] + multiset{s.current}[x];
  }

  lemma CheckBlockedKeepsCurrent(s: Sched)
    requires Once(s) && s.current != s.idle
    ensures s.current in CheckBlocked(s).pcb && CheckBlocked(s).pcb[s.current] == s.pcb[s.current]
  {
    forall k | 0 <= k < |s.queues[BLOCKED_LIST]| ensures s.queues[BLOCKED_LIST][k] != s.current {
      CurrentIsNotQueued(s, BLOCKED_LIST, k);
    }
    UnblockKeepsOthers(s.(queues := s.queues[BLOCKED_LIST := []]), s.queues[BLOCKED_LIST], s.current);
  }

  /** The state scheduler hands to checkExited. */
  function BeforeSweep(s: Sched, interval: nat, due: seq<int>): (r: Sched)
    requires Shaped(s)
    ensures Shaped(r) && BeforeSwitch(s, interval, due) == SpendQuantum(CheckExited(r))
  {
    CheckBlocked(Wake(Age(s, interval), due))
  }

  /** What of a block the ticking, waking and unblocking before the sweep leave. */
  predicate Woken(e: PCB, e': PCB, due: bool) {
    && e'.id == e.id && e'.parentId == e.parentId && e'.childsIds == e.childsIds
    && e'.state == if due && e.state != EXITED then READY else e.state
  }

  ghost predicate AllWoken(s: Sched, r: Sched, due: seq<int>) {
    && r.pcb.Keys == s.pcb.Keys
    && r.current == s.current && r.idle == s.idle && r.requeuesReady == s.requeuesReady
    && forall p | p in s.pcb :: Woken(s.pcb[p], r.pcb[p], p in due)
  }

  lemma AgeAndWake(s: Sched, interval: nat, due: seq<int>)
    requires Shaped(s)
    ensures var r := Wake(Age(s, interval), due);
      AllWoken(s, r, due) && r.queues == s.queues && r.pcb[s.current].quantums == s.pcb[s.current].quantums
  {
  }

  /** Up to the sweep a block only ages, is woken, and gets quantums and priority when it is queued again. */
  lemma UntilTheSweep(s: Sched, interval: nat, due: seq<int>)
    requires Once(s)
    ensures var r := BeforeSweep(s, interval, due);
      && Once(r) && AllWoken(s, r, due) && Queued(r.queues) == Queued(s.queues)
      && (s.current != s.idle ==> r.pcb[s.current].quantums == s.pcb[s.current].quantums)
  {
    var s1 := Wake(Age(s, interval), due);
    AgeAndWake(s, interval, due);
    AgeStep(s, interval);
    WakeStep(Age(s, interval), due);
    CheckBlockedBag(s1);
    CheckBlockedQueued(s1);
    if s.current != s.idle { CheckBlockedKeepsCurrent(s1); }
  }

  lemma SameExits(s: Sched, interval: nat, due: seq<int>)
    requires Once(s)
    ensures var r := BeforeSweep(s, interval, due);
      && (forall p :: ExitedInQueue(r, p) <==> ExitedInQueue(s, p))
      && (HasExitedChild(r) <==> HasExitedChild(s))
      && (forall d | Alone(s, d) :: Alone(r, d))
  {
    UntilTheSweep(s, interval, due);
    var r := BeforeSweep(s, interval, due);
    forall p ensures ExitedInQueue(r, p) <==> ExitedInQueue(s, p) {
    }
    forall d | Alone(s, d) ensures Alone(r, d) {
      forall q | ExitedInQueue(r, q) && q != d ensures Unrelated(r.pcb[q], r.pcb[d].id) {
        assert ExitedInQueue(s, q);
      }
    }
  }

  /** What checkExited leaves of the running process, when that has exited and when it has not. */
  lemma AfterTheSweep(r: Sched)
    requires Once(r)
    ensures var c, swept := CheckExited(r), Sweep(r, 0);
      && (IsInState(swept, r.current, EXITED) ==> IsInState(c, c.current, RUNNING))
      && (!IsInState(swept, r.current, EXITED) ==> c == swept && OnlyReadied(r, c))
  {
    SweepBag(r, 0);
    if Sweep(r, 0).pcb[r.current].state == EXITED { ExitCurrent(Sweep(r, 0)); }
  }

  /** A tick that drops somebody drops the running process, and only when it is due to. */
  lemma DropsOnlyIf(s: Sched, interval: nat, due: seq<int>)
    requires Once(s) && DropsReady(s, interval, due)
    ensures WillDrop(s, due) && BeforeSwitch(s, interval, due).current == s.current
  {
    var r := BeforeSweep(s, interval, due);
    UntilTheSweep(s, interval, due);
    SameExits(s, interval, due);
    AfterTheSweep(r);
    if !HasExitedChild(r) { SweepSparesCurrent(r, 0); }
  }

  /** Who is running, RUNNING, not woken and without exited children, is still there after the tick. */
  lemma RunningIsKept(s: Sched, interval: nat, due: seq<int>)
    requires Once(s) && s.pcb[s.current].state == RUNNING && s.current !in due && !HasExitedChild(s)
    ensures !DropsReady(s, interval, due)
  {
    if DropsReady(s, interval, due) { DropsOnlyIf(s, interval, due); }
  }

  lemma ReadyAfterSweep(s: Sched, interval: nat, due: seq<int>)
    requires Once(s) && s.current != s.idle && s.pcb[s.current].state != EXITED && NoExitedFamilies(s)
    requires s.pcb[s.current].state == READY || s.current in due || HasExitedChild(s)
    ensures IsInState(Sweep(BeforeSweep(s, interval, due), 0), s.current, READY)
  {
    var r := BeforeSweep(s, interval, due);
    UntilTheSweep(s, interval, due);
    SweepBag(r, 0);
    if r.pcb[r.current].state != READY {
      SameExits(s, interval, due);
      var d :| ExitedInQueue(s, d) && s.pcb[d].parentId == s.pcb[s.current].id;
      assert ExitedInQueue(r, d) && Alone(s, d) && d in Bag(r) && s.current in Bag(r);
      var j, l := QueuedIsSomewhere(r.queues, d);
      SweepReadies(r, 0, d, j, l);
    }
  }

  /**
    Exactly when the tick loses the running process, in terms of the state before it: it is at the end
    of its quantums, and READY, woken by its timer, or the parent of a queued process that has exited.
   */
  lemma DropsReadyIff(s: Sched, interval: nat, due: seq<int>)
    requires Once(s) && NoExitedFamilies(s)
    ensures DropsReady(s, interval, due) <==> WillDrop(s, due)
  {
    if DropsReady(s, interval, due) {
      DropsOnlyIf(s, interval, due);
    } else if WillDrop(s, due) {
      var r := BeforeSweep(s, interval, due);
      UntilTheSweep(s, interval, due);
      AfterTheSweep(r);
      ReadyAfterSweep(s, interval, due);
    }
  }

  /** The same of the population: everybody who has not exited survives the tick if and only if it is not so. */
  lemma TickKeepsAllIff(s: Sched, interval: nat, due: seq<int>)
    requires Once(s) && NoExitedFamilies(s)
    ensures (forall p | p in Bag(s) && s.pcb[p].state != EXITED :: p in Bag(Tick(s, interval, due))) <==>
      !WillDrop(s, due)
  {
    TickPopulation(s, interval, due);
    DropsReadyIff(s, interval, due);
  }
}
