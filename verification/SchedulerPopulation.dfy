/** Conservation of processes by the scheduler: who is where after every tick, fork and state change. */
module SchedulerPopulation {
  import opened Options
  import opened SchedulerSpec

  /** Every process in a list of queues, with multiplicity. */
  ghost function Queued(queues: seq<seq<int>>): multiset<int> {
    if queues == [] then multiset{} else multiset(queues[0]) + Queued(queues[1..])
  }

  /** Every process of the system except idle: running, ready or blocked. */
  ghost function Bag(s: Sched): multiset<int> {
    Queued(s.queues) + if s.current == s.idle then multiset{} else multiset{s.current}
  }

  /** Each process of the bag is in exactly one place, idle in none of them, and no pid is used twice. */
  ghost predicate Unique(bag: multiset<int>, pcb: map<int, PCB>, idle: int) {
    && idle in pcb && idle !in bag
    && (forall p | p in bag :: bag[p] == 1 && p in pcb && pcb[p].id != pcb[idle].id)
    && (forall p, q | p in bag && q in bag && p != q :: pcb[p].id != pcb[q].id)
  }

  ghost predicate Once(s: Sched) { Shaped(s) && Unique(Bag(s), s.pcb, s.idle) }

  /** Uniqueness survives the loss of processes and changes of anything but pids. */
  lemma UniquePreserved(bag: multiset<int>, bag': multiset<int>, pcb: map<int, PCB>, pcb': map<int, PCB>, idle: int)
    requires Unique(bag, pcb, idle) && bag' <= bag
    requires pcb'.Keys == pcb.Keys && forall p | p in pcb :: pcb'[p].id == pcb[p].id
    ensures Unique(bag', pcb', idle)
  {
    assert forall p | p in bag' :: p in bag && bag'[p] <= bag[p];
  }

  // ---------- What each operation does to the bag ----------

  lemma Exchange(a: multiset<int>, rest: multiset<int>, x: multiset<int>, y: multiset<int>)
    requires x <= rest
    ensures x <= a + rest && a + (rest - x + y) == a + rest - x + y
  {
  }

  lemma {:induction false} QueuedUpdate(queues: seq<seq<int>>, i: nat, list: seq<int>)
    requires i < |queues|
    ensures multiset(queues[i]) <= Queued(queues)
    ensures Queued(queues[i := list]) == Queued(queues) - multiset(queues[i]) + multiset(list)
  {
    var rest := queues[1..];
    if i == 0 {
      assert queues[i := list][1..] == rest;
    } else {
      assert queues[i := list][1..] == rest[i - 1 := list] && rest[i - 1] == queues[i];
      QueuedUpdate(rest, i - 1, list);
      Exchange(multiset(queues[0]), Queued(rest), multiset(queues[i]), multiset(list));
    }
  }

  lemma AppendQueued(s: Sched, i: nat, p: int)
    requires i < |s.queues|
    ensures Queued(Append(s, i, p).queues) == Queued(s.queues) + multiset{p}
  {
    QueuedUpdate(s.queues, i, s.queues[i] + [p]);
    assert multiset(s.queues[i] + [p]) == multiset(s.queues[i]) + multiset{p};
  }

  lemma RemoveQueued(s: Sched, i: nat, k: nat)
    requires i < |s.queues| && k < |s.queues[i]|
    ensures var list := s.queues[i];
      Queued(s.queues[i := list[..k] + list[k + 1..]]) == Queued(s.queues) - multiset{list[k]}
    ensures s.queues[i][k] in Queued(s.queues)
  {
    var list := s.queues[i];
    QueuedUpdate(s.queues, i, list[..k] + list[k + 1..]);
    assert list == list[..k] + [list[k]] + list[k + 1..];
    assert multiset(list) == multiset(list[..k] + list[k + 1..]) + multiset{list[k]};
    assert list[k] in multiset(list);
  }

  /** Processes in the queues are counted in the bag. */
  lemma {:induction false} InQueued(queues: seq<seq<int>>, i: nat, k: nat)
    requires i < |queues| && k < |queues[i]|
    ensures queues[i][k] in Queued(queues)
  {
    if i > 0 { InQueued(queues[1..], i - 1, k); }
  }

  lemma {:induction false} QueuedIsSomewhere(queues: seq<seq<int>>, p: int) returns (i: nat, k: nat)
    requires p in Queued(queues)
    ensures i < |queues| && k < |queues[i]| && queues[i][k] == p
  {
    if p in queues[0] {
      i := 0;
      k :| 0 <= k < |queues[0]| && queues[0][k] == p;
    } else {
      i, k := QueuedIsSomewhere(queues[1..], p);
      i := i + 1;
    }
  }

  /** A running process whose state is EXITED, or as written READY, is put in no queue. */
  ghost predicate FallsThrough(s: Sched)
    requires Shaped(s)
  {
    s.current != s.idle && (s.pcb[s.current].state == EXITED || (s.pcb[s.current].state == READY && !s.requeuesReady))
  }

  /** The running process is appended to one queue, or to none. */
  lemma RequeueAppends(s: Sched)
    requires Shaped(s)
    ensures CurrentIsIdle(s) ==> Requeue(s).queues == s.queues
    ensures !CurrentIsIdle(s) ==>
      Queued(Requeue(s).queues) ==
        if s.current != s.idle && FallsThrough(s) then Queued(s.queues) else Queued(s.queues) + multiset{s.current}
  {
    if !CurrentIsIdle(s) {
      AppendQueued(s, BLOCKED_LIST, s.current);
      AppendQueued(s, 5, s.current);
      AppendQueued(s, Level(s.pcb[s.current].agingInterval), s.current);
    }
  }

  lemma CurrentIsIdleIff(s: Sched)
    requires Once(s)
    ensures CurrentIsIdle(s) <==> s.current == s.idle
  {
    if s.current != s.idle { assert s.current in Bag(s); }
  }

  lemma RequeueQueued(s: Sched)
    requires Once(s)
    ensures Queued(Requeue(s).queues) == if FallsThrough(s) then Queued(s.queues) else Bag(s)
  {
    CurrentIsIdleIff(s);
    RequeueAppends(s);
  }

  lemma PutBack(a: multiset<int>, p: int)
    requires p in a
    ensures a - multiset{p} + multiset{p} == a
  {
  }

  lemma HeadTaken(queues: seq<seq<int>>, i: nat)
    requires i < |queues| && queues[i] != []
    ensures queues[i][0] in Queued(queues)
    ensures Queued(queues[i := queues[i][1..]]) + multiset{queues[i][0]} == Queued(queues)
  {
    var list := queues[i];
    QueuedUpdate(queues, i, list[1..]);
    assert list == [list[0]] + list[1..];
    InQueued(queues, i, 0);
    PutBack(Queued(queues), list[0]);
  }

  lemma DispatchBag(s: Sched)
    requires Shaped(s) && s.idle !in Queued(s.queues)
    ensures Bag(Dispatch(s)) == Queued(s.queues)
  {
    match FirstReady(s.queues, 0)
    case Some(i) => HeadTaken(s.queues, i);
    case None =>
  }

  /** nextProcess conserves the processes exactly when the running one does not fall through. */
  lemma NextProcessBag(s: Sched)
    requires Once(s)
    ensures Bag(NextProcess(s)) == if FallsThrough(s) then Bag(s) - multiset{s.current} else Bag(s)
  {
    var r := Requeue(s);
    RequeueQueued(s);
    assert r.idle == s.idle && s.idle !in Queued(r.queues);
    DispatchBag(r);
    if FallsThrough(s) { TakenAway(Queued(s.queues), s.current); }
  }

  lemma TakenAway(a: multiset<int>, p: int)
    ensures a + multiset{p} - multiset{p} == a
  {
  }

  lemma OneThenRest(a: multiset<int>, rest: seq<int>)
    requires rest != []
    ensures a + multiset{rest[0]} + multiset(rest[1..]) == a + multiset(rest)
  {
    assert rest == [rest[0]] + rest[1..];
  }

  lemma {:induction false} UnblockQueued(s: Sched, rest: seq<int>)
    requires Shaped(s) && forall k | 0 <= k < |rest| :: rest[k] in s.pcb
    ensures Queued(Unblock(s, rest).queues) == Queued(s.queues) + multiset(rest)
    decreases |rest|
  {
    if rest != [] {
      var i := if s.pcb[rest[0]].state != BLOCKED then Level(s.pcb[rest[0]].agingInterval) else BLOCKED_LIST;
      var s1 := if s.pcb[rest[0]].state != BLOCKED then InsertInQueue(s, rest[0])
                else Append(s, BLOCKED_LIST, rest[0]);
      AppendQueued(s, i, rest[0]);
      UnblockQueued(s1, rest[1..]);
      OneThenRest(Queued(s.queues), rest);
    }
  }

  /** Control blocks are the same but for quantums and priority. */
  ghost predicate SameButQueue(s: Sched, s': Sched) {
    && s'.pcb.Keys == s.pcb.Keys && s'.current == s.current && s'.idle == s.idle
    && s'.requeuesReady == s.requeuesReady
    && forall p | p in s.pcb ::
         s'.pcb[p] == s.pcb[p].(quantums := s'.pcb[p].quantums, priority := s'.pcb[p].priority)
  }

  lemma {:induction false} UnblockKeepsStates(s: Sched, rest: seq<int>)
    requires Shaped(s) && forall k | 0 <= k < |rest| :: rest[k] in s.pcb
    ensures SameButQueue(s, Unblock(s, rest))
    decreases |rest|
  {
    if rest != [] {
      UnblockKeepsStates(if s.pcb[rest[0]].state != BLOCKED then InsertInQueue(s, rest[0])
                         else Append(s, BLOCKED_LIST, rest[0]), rest[1..]);
    }
  }

  lemma CheckBlockedQueued(s: Sched)
    requires Shaped(s)
    ensures Queued(CheckBlocked(s).queues) == Queued(s.queues) && SameButQueue(s, CheckBlocked(s))
  {
    var s' := s.(queues := s.queues[BLOCKED_LIST := []]);
    QueuedUpdate(s.queues, BLOCKED_LIST, []);
    UnblockQueued(s', s.queues[BLOCKED_LIST]);
    UnblockKeepsStates(s', s.queues[BLOCKED_LIST]);
  }

  lemma CheckBlockedBag(s: Sched)
    requires Once(s)
    ensures Bag(CheckBlocked(s)) == Bag(s) && SameButQueue(s, CheckBlocked(s)) && Once(CheckBlocked(s))
  {
    CheckBlockedQueued(s);
    UniquePreserved(Bag(s), Bag(s), s.pcb, CheckBlocked(s).pcb, s.idle);
  }

  /** Of pid, state, quantums and aging, only states changed, and those to READY. */
  ghost predicate OnlyReadied(s: Sched, s': Sched) {
    && s'.pcb.Keys == s.pcb.Keys && s'.current == s.current && s'.idle == s.idle
    && s'.requeuesReady == s.requeuesReady
    && forall p | p in s.pcb :: ReadiedBlock(s.pcb[p], s'.pcb[p])
  }

  predicate ReadiedBlock(e: PCB, e': PCB) {
    && e'.id == e.id && e'.quantums == e.quantums && e'.agingInterval == e.agingInterval
    && (e'.state == e.state || e'.state == READY)
  }

  lemma {:induction false} AdoptOnlyReadies(s: Sched, slots: seq<nat>, parentId: nat)
    requires Shaped(s)
    ensures OnlyReadied(s, Adopt(s, slots, parentId))
    decreases |slots|
  {
    if slots != [] {
      match if slots[0] == 0 then None else GetEntry(s, slots[0])
      case Some(child) => AdoptOnlyReadies(SetParent(s, child, parentId), slots[1..], parentId);
      case None => AdoptOnlyReadies(s, slots[1..], parentId);
    }
  }

  /** Deleting a process only makes its parent READY. */
  lemma DeleteProcessOnlyReadies(s: Sched, p: int)
    requires Shaped(s) && p in s.pcb
    ensures OnlyReadied(s, DeleteProcess(s, p))
  {
    match GetEntry(s, s.pcb[p].parentId)
    case Some(parent) => AdoptOnlyReadies(s, s.pcb[p].childsIds, s.pcb[parent].id);
    case None =>
  }

  /** Only processes that were EXITED left the bag. */
  ghost predicate LeftExited(bag: multiset<int>, bag': multiset<int>, pcb: map<int, PCB>) {
    bag' <= bag && forall p | p in bag && p !in bag' :: p in pcb && pcb[p].state == EXITED
  }

  /** From s to s' only processes that were EXITED left, and what remains was only made READY. */
  ghost predicate OnlyExitedLeft(s: Sched, s': Sched) {
    OnlyReadied(s, s') && LeftExited(Bag(s), Bag(s'), s.pcb)
  }

  lemma OneExitedLeft(bag: multiset<int>, p: int, pcb: map<int, PCB>, idle: int)
    requires Unique(bag, pcb, idle) && p in bag && pcb[p].state == EXITED
    ensures LeftExited(bag, bag - multiset{p}, pcb) && Unique(bag - multiset{p}, pcb, idle)
  {
    UniquePreserved(bag, bag - multiset{p}, pcb, pcb, idle);
  }

  function Unlinked(s: Sched, i: nat, k: nat): Sched
    requires i < |s.queues| && k < |s.queues[i]|
  {
    var list := s.queues[i];
    s.(queues := s.queues[i := list[..k] + list[k + 1..]])
  }

  lemma UnlinkedShaped(s: Sched, i: nat, k: nat)
    requires Shaped(s) && i < LISTS && k < |s.queues[i]|
    ensures Shaped(Unlinked(s, i, k)) && OnlyReadied(s, Unlinked(s, i, k))
  {
  }

  lemma UnlinkBag(s: Sched, i: nat, k: nat)
    requires Once(s) && i < LISTS && k < |s.queues[i]| && s.pcb[s.queues[i][k]].state == EXITED
    ensures OnlyExitedLeft(s, Unlinked(s, i, k)) && Once(Unlinked(s, i, k))
  {
    var u, p, bag := Unlinked(s, i, k), s.queues[i][k], Bag(s);
    UnlinkedBag(s, i, k);
    UnlinkedShaped(s, i, k);
    OneExitedLeft(bag, p, s.pcb, s.idle);
    assert Bag(u) == bag - multiset{p} && u.pcb == s.pcb && u.idle == s.idle;
  }

  lemma UnlinkedBag(s: Sched, i: nat, k: nat)
    requires i < |s.queues| && k < |s.queues[i]|
    ensures s.queues[i][k] in Bag(s) && Bag(Unlinked(s, i, k)) == Bag(s) - multiset{s.queues[i][k]}
  {
    RemoveQueued(s, i, k);
    TakeFromSum(Queued(s.queues), if s.current == s.idle then multiset{} else multiset{s.current}, s.queues[i][k]);
  }

  lemma TakeFromSum(a: multiset<int>, b: multiset<int>, p: int)
    requires p in a
    ensures a - multiset{p} + b == a + b - multiset{p}
  {
  }

  lemma DeleteProcessBag(s: Sched, p: int)
    requires Once(s) && p in s.pcb
    ensures OnlyExitedLeft(s, DeleteProcess(s, p)) && Once(DeleteProcess(s, p))
    ensures Bag(DeleteProcess(s, p)) == Bag(s)
  {
    DeleteProcessOnlyReadies(s, p);
    UniquePreserved(Bag(s), Bag(s), s.pcb, DeleteProcess(s, p).pcb, s.idle);
  }

  lemma OnlyExitedLeftTransitive(s: Sched, s1: Sched, s2: Sched)
    requires OnlyExitedLeft(s, s1) && OnlyExitedLeft(s1, s2)
    ensures OnlyExitedLeft(s, s2)
  {
  }

  lemma {:induction false} SweepListBag(s: Sched, i: nat, k: nat)
    requires Once(s) && i < LISTS && k <= |s.queues[i]|
    ensures OnlyExitedLeft(s, SweepList(s, i, k)) && Once(SweepList(s, i, k))
    decreases |s.queues[i]| - k
  {
    var list := s.queues[i];
    if k == |list| {
    } else if s.pcb[list[k]].state == EXITED {
      var s1 := Unlinked(s, i, k);
      var s' := DeleteProcess(s1, list[k]);
      UnlinkBag(s, i, k);
      DeleteProcessBag(s1, list[k]);
      SweepListBag(s', i, k);
      OnlyExitedLeftTransitive(s, s1, s');
      OnlyExitedLeftTransitive(s, s', SweepList(s', i, k));
    } else {
      SweepListBag(s, i, k + 1);
    }
  }

  lemma {:induction false} SweepBag(s: Sched, i: nat)
    requires Once(s) && i <= LISTS
    ensures OnlyExitedLeft(s, Sweep(s, i)) && Once(Sweep(s, i))
    decreases LISTS - i
  {
    if i < LISTS {
      SweepListBag(s, i, 0);
      SweepBag(SweepList(s, i, 0), i + 1);
      OnlyExitedLeftTransitive(s, SweepList(s, i, 0), Sweep(s, i));
    }
  }

  // ---------- One tick ----------

  /** Pids are kept, and nobody becomes EXITED. */
  ghost predicate NoNewExit(s: Sched, s': Sched) {
    && s'.pcb.Keys == s.pcb.Keys && s'.idle == s.idle && s'.requeuesReady == s.requeuesReady
    && forall p | p in s.pcb ::
         s'.pcb[p].id == s.pcb[p].id && (s'.pcb[p].state == EXITED ==> s.pcb[p].state == EXITED)
  }

  /** Processes stay unique, nobody becomes EXITED, and only who was EXITED leaves. */
  ghost predicate Orderly(s: Sched, s': Sched) {
    NoNewExit(s, s') && Once(s') && LeftExited(Bag(s), Bag(s'), s.pcb)
  }

  lemma OrderlyTransitive(s: Sched, s1: Sched, s2: Sched)
    requires Orderly(s, s1) && Orderly(s1, s2)
    ensures Orderly(s, s2)
  {
  }

  lemma SameBagOrderly(s: Sched, s': Sched)
    requires Once(s) && Shaped(s') && NoNewExit(s, s') && Bag(s') == Bag(s)
    ensures Orderly(s, s')
  {
    UniquePreserved(Bag(s), Bag(s'), s.pcb, s'.pcb, s.idle);
  }

  lemma OnlyReadiedNoNewExit(s: Sched, s': Sched)
    requires OnlyReadied(s, s')
    ensures NoNewExit(s, s')
  {
  }

  /** nextProcess as a step: who leaves, and that the one dispatched is RUNNING. */
  lemma NextProcessStep(s: Sched)
    requires Once(s)
    ensures Once(NextProcess(s)) && NoNewExit(s, NextProcess(s))
    ensures Bag(NextProcess(s)) == if FallsThrough(s) then Bag(s) - multiset{s.current} else Bag(s)
    ensures NextProcess(s).pcb[NextProcess(s).current].state == RUNNING
  {
    NextProcessBag(s);
    NextProcessNoNewExit(s);
    UniquePreserved(Bag(s), Bag(NextProcess(s)), s.pcb, NextProcess(s).pcb, s.idle);
  }

  lemma RequeueNoNewExit(s: Sched)
    requires Shaped(s)
    ensures NoNewExit(s, Requeue(s))
  {
  }

  lemma DispatchNoNewExit(s: Sched)
    requires Shaped(s)
    ensures NoNewExit(s, Dispatch(s)) && Dispatch(s).pcb[Dispatch(s).current].state == RUNNING
  {
  }

  lemma NextProcessNoNewExit(s: Sched)
    requires Shaped(s)
    ensures NoNewExit(s, NextProcess(s)) && NextProcess(s).pcb[NextProcess(s).current].state == RUNNING
  {
    RequeueNoNewExit(s);
    DispatchNoNewExit(Requeue(s));
  }

  /** The end of checkExited when the running process has exited; if it is its own parent it is READY again. */
  lemma ExitCurrent(s: Sched)
    requires Once(s) && s.pcb[s.current].state == EXITED
    ensures var r := NextProcess(CheckBlocked(DeleteProcess(s, s.current)));
      Orderly(s, r) && r.pcb[r.current].state == RUNNING
  {
    var s1 := DeleteProcess(s, s.current);
    DeleteProcessBag(s, s.current);
    OnlyReadiedNoNewExit(s, s1);
    var s2 := CheckBlocked(s1);
    CheckBlockedBag(s1);
    NextProcessStep(s2);
    LeftExitedNow(Bag(s), Bag(NextProcess(s2)), s.current, s.pcb);
  }

  lemma LeftExitedNow(bag: multiset<int>, bag': multiset<int>, p: int, pcb: map<int, PCB>)
    requires bag' == bag || bag' == bag - multiset{p}
    requires p in pcb && pcb[p].state == EXITED
    ensures LeftExited(bag, bag', pcb)
  {
  }

  /** checkExited: only EXITED processes leave; the process running afterwards is the same or just dispatched. */
  lemma CheckExitedStep(s: Sched)
    requires Once(s)
    ensures var r := CheckExited(s);
      Orderly(s, r) && r.pcb[r.current].state != EXITED
  {
    var s' := Sweep(s, 0);
    SweepBag(s, 0);
    OnlyReadiedNoNewExit(s, s');
    if s'.pcb[s'.current].state == EXITED {
      ExitCurrent(s');
      OrderlyTransitive(s, s', CheckExited(s));
    }
  }

  /** The tick switches away from a running process that is READY, which as written goes to no queue. */
  ghost predicate DropsReady(s: Sched, interval: nat, due: seq<int>)
    requires Shaped(s)
  {
    var b := BeforeSwitch(s, interval, due);
    && b.current != b.idle && MustSwitch(b) && b.pcb[b.current].state == READY && !b.requeuesReady
    && b.current in s.pcb && s.pcb[b.current].state != EXITED
  }

  lemma CheckBlockedStep(s: Sched)
    requires Once(s)
    ensures Orderly(s, CheckBlocked(s))
  {
    CheckBlockedBag(s);
    SameBagOrderly(s, CheckBlocked(s));
  }

  lemma AgeStep(s: Sched, interval: nat)
    requires Once(s)
    ensures Orderly(s, Age(s, interval))
  {
    SameBagOrderly(s, Age(s, interval));
  }

  lemma WakeStep(s: Sched, due: seq<int>)
    requires Once(s)
    ensures Orderly(s, Wake(s, due))
  {
    SameBagOrderly(s, Wake(s, due));
  }

  lemma SpendStep(s: Sched)
    requires Once(s)
    ensures Orderly(s, SpendQuantum(s))
  {
    SameBagOrderly(s, SpendQuantum(s));
  }

  lemma BeforeSwitchStep(s: Sched, interval: nat, due: seq<int>)
    requires Once(s)
    ensures var b := BeforeSwitch(s, interval, due);
      Orderly(s, b) && b.pcb[b.current].state != EXITED
  {
    var s0 := Age(s, interval);
    AgeStep(s, interval);
    var s1 := Wake(s0, due);
    WakeStep(s0, due);
    OrderlyTransitive(s, s0, s1);
    var s2 := CheckBlocked(s1);
    CheckBlockedStep(s1);
    OrderlyTransitive(s, s1, s2);
    var s3 := CheckExited(s2);
    CheckExitedStep(s2);
    OrderlyTransitive(s, s2, s3);
    SpendStep(s3);
    OrderlyTransitive(s, s3, SpendQuantum(s3));
  }

  /**
    One tick: processes stay in exactly one place; whoever is gone had exited, unless a READY process
    was dropped; and every other process survives if and only if none was.
   */
  lemma TickPopulation(s: Sched, interval: nat, due: seq<int>)
    requires Once(s)
    ensures var r := Tick(s, interval, due);
      && Once(r) && Bag(r) <= Bag(s) && NoNewExit(s, r)
      && (forall p | p in Bag(s) && p !in Bag(r) ::
            s.pcb[p].state == EXITED || (DropsReady(s, interval, due) && p == BeforeSwitch(s, interval, due).current))
      && ((forall p | p in Bag(s) && s.pcb[p].state != EXITED :: p in Bag(r)) <==> !DropsReady(s, interval, due))
  {
    var b := BeforeSwitch(s, interval, due);
    BeforeSwitchStep(s, interval, due);
    TickBag(s, interval, due);
    if MustSwitch(b) && FallsThrough(b) {
      SwitchPopulation(Bag(s), Bag(b), b.current, s.pcb);
    }
  }

  /** A tick takes from the bag who exited, and the running process if it falls through the switch. */
  lemma TickBag(s: Sched, interval: nat, due: seq<int>)
    requires Once(s)
    ensures var b, r := BeforeSwitch(s, interval, due), Tick(s, interval, due);
      && Once(r) && NoNewExit(s, r)
      && (MustSwitch(b) && FallsThrough(b) ==> b.current in Bag(b) && Bag(r) == Bag(b) - multiset{b.current})
      && (!(MustSwitch(b) && FallsThrough(b)) ==> Bag(r) == Bag(b))
  {
    BeforeSwitchStep(s, interval, due);
    NextProcessStep(BeforeSwitch(s, interval, due));
  }

  lemma SwitchPopulation(bag: multiset<int>, bag1: multiset<int>, p: int, pcb: map<int, PCB>)
    requires LeftExited(bag, bag1, pcb) && p in bag1 && forall q | q in bag :: bag[q] == 1
    ensures bag1 - multiset{p} <= bag && p in bag && p !in bag1 - multiset{p}
    ensures forall q | q in bag && q !in bag1 - multiset{p} :: q == p || (q in pcb && pcb[q].state == EXITED)
  {
    assert forall q | q in bag1 :: bag1[q] <= bag[q];
  }

  // ---------- Boot and fork ----------

  /** The slots as createInit leaves those of init. */
  const NO_CHILDREN: seq<nat> := seq(32, _ => 0)

  /** scheduler, the first time: the head of level 0 becomes current and the queue is emptied. */
  function Boot(s: Sched): Sched
    requires |s.queues| == LISTS && s.queues[0] != []
  {
    s.(current := s.queues[0][0], queues := s.queues[0 := []])
  }

  /**
    As createInit leaves things, init is READY and runs with one quantum: unless it blocks or yields
    first, the next tick drops it and nothing is left to run but idle.
   */
  lemma {:induction false} FirstTickDropsInit(s: Sched, init: int, idle: int, stale: seq<nat>, interval: nat,
                                              due: seq<int>)
    requires init != idle && s.idle == idle && !s.requeuesReady
    requires s.queues == [[init], [], [], [], [], [], []]
    requires s.pcb == map[init := PCB(INIT_ID, READY, 1, 0, 0, 0, NO_CHILDREN),
                          idle := PCB(IDLE_ID, READY, 1, 0, 0, 0, stale)]
    ensures Once(Boot(s)) && Bag(Boot(s)) == multiset{init}
    ensures DropsReady(Boot(s), interval, due) && Bag(Tick(Boot(s), interval, due)) == multiset{}
  {
    var s0 := Boot(s);
    var s1 := Wake(Age(s0, interval), due);
    EmptyQueues(s0.queues);
    NoQueuesNoBlocked(s1);
    NoQueuesNoExited(CheckBlocked(s1));
    TickPopulation(s0, interval, due);
  }

  lemma EmptyQueues(queues: seq<seq<int>>)
    requires queues == [[], [], [], [], [], [], []]
    ensures Queued(queues) == multiset{}
  {
    assert queues[1..] == [[], [], [], [], [], []];
    assert queues[1..][1..] == [[], [], [], [], []];
    AllEmpty(queues);
  }

  lemma {:induction false} AllEmpty(queues: seq<seq<int>>)
    requires forall i | 0 <= i < |queues| :: queues[i] == []
    ensures Queued(queues) == multiset{}
  {
    if queues != [] { AllEmpty(queues[1..]); }
  }

  lemma NoQueuesNoBlocked(s: Sched)
    requires Shaped(s) && s.queues == [[], [], [], [], [], [], []]
    ensures CheckBlocked(s) == s
  {
  }

  lemma NoQueuesNoExited(s: Sched)
    requires Shaped(s) && s.queues == [[], [], [], [], [], [], []] && s.pcb[s.current].state != EXITED
    ensures CheckExited(s) == s
  {
    SweepNothing(s, 0);
  }

  lemma {:induction false} SweepNothing(s: Sched, i: nat)
    requires Shaped(s) && i <= LISTS && forall j | 0 <= j < LISTS :: s.queues[j] == []
    ensures Sweep(s, i) == s
    decreases LISTS - i
  {
    if i < LISTS { SweepNothing(s, i + 1); }
  }

  /** unusedID: one more than the largest pid of the running and queued processes, skipping idle's. */
  function MaxId(pcb: map<int, PCB>, list: seq<int>, k: nat, max: nat): (r: nat)
    requires k <= |list| && forall j | 0 <= j < |list| :: list[j] in pcb
    ensures r >= max && forall j | k <= j < |list| :: pcb[list[j]].id <= r
    decreases |list| - k
  {
    if k == |list| then max
    else MaxId(pcb, list, k + 1, if pcb[list[k]].id > max then pcb[list[k]].id else max)
  }

  function MaxIdFrom(s: Sched, i: nat, max: nat): (r: nat)
    requires Shaped(s) && i <= LISTS
    ensures r >= max && forall j, k | i <= j < LISTS && 0 <= k < |s.queues[j]| :: s.pcb[s.queues[j][k]].id <= r
    decreases LISTS - i
  {
    if i == LISTS then max else MaxIdFrom(s, i + 1, MaxId(s.pcb, s.queues[i], 0, max))
  }

  function UnusedId(s: Sched): nat
    requires Shaped(s)
  {
    var max := MaxIdFrom(s, 0, s.pcb[s.current].id);
    if max + 1 == 2 then 3 else max + 1
  }

  /** The pid unusedID finds is nobody's, idle's included. */
  lemma UnusedIdIsFresh(s: Sched)
    requires Shaped(s) && s.pcb[s.idle].id == IDLE_ID
    ensures forall p | p in Bag(s) :: p in s.pcb && s.pcb[p].id != UnusedId(s)
    ensures UnusedId(s) != s.pcb[s.idle].id
  {
    forall p | p in Bag(s) ensures p in s.pcb && s.pcb[p].id != UnusedId(s) {
      if p in Queued(s.queues) {
        var i, k := QueuedIsSomewhere(s.queues, p);
      }
    }
  }

  /** The parent's slots with the child in the first empty one, or behind them if there is none. */
  function AddChild(slots: seq<nat>, id: nat): (r: seq<nat>)
    ensures r != []
  {
    if slots == [] then [id]
    else if slots[0] == 0 then [id] + slots[1..]
    else [slots[0]] + AddChild(slots[1..], id)
  }

  /** The control blocks once sysFork has filled in the child, and put its pid into a slot of the parent. */
  function Forked(s: Sched, p: int, stale: seq<nat>, id: nat): (r: map<int, PCB>)
    requires Shaped(s)
  {
    var parent := s.pcb[s.current];
    s.pcb[s.current := parent.(childsIds := AddChild(parent.childsIds, id))]
         [p := parent.(id := id, parentId := parent.id, childsIds := stale)]
  }

  /**
    sysFork: a copy of the running process, at the address allocPCB returned, made ready to run.  Its
    own slots are not written: they are whatever that memory held.
   */
  function Fork(s: Sched, p: int, stale: seq<nat>): (r: Sched)
    requires Shaped(s)
    ensures Shaped(r)
  {
    InsertInQueue(s.(pcb := Forked(s, p, stale, UnusedId(s))), p)
  }

  /** A new process under an unused pid leaves everybody in one place under a pid of his own. */
  lemma UniqueWithNew(bag: multiset<int>, pcb: map<int, PCB>, pcb': map<int, PCB>, idle: int, p: int)
    requires Unique(bag, pcb, idle) && p !in bag && p != idle && p in pcb'
    requires forall q | q in bag || q == idle :: q in pcb' && pcb'[q].id == pcb[q].id && pcb[q].id != pcb'[p].id
    ensures Unique(bag + multiset{p}, pcb', idle)
  {
    var bag' := bag + multiset{p};
    forall q | q in bag' ensures bag'[q] == 1 && q in pcb' && pcb'[q].id != pcb'[idle].id {
      assert q == p || q in bag;
    }
  }

  lemma ForkBag(s: Sched, p: int, stale: seq<nat>)
    requires Once(s) && p != s.idle && p !in Bag(s)
    ensures Bag(Fork(s, p, stale)) == Bag(s) + multiset{p}
  {
    AppendQueued(s, Level(s.pcb[s.current].agingInterval), p);
  }

  /** A fork adds one process, under a new pid, and disturbs no other. */
  lemma ForkPopulation(s: Sched, p: int, stale: seq<nat>)
    requires Once(s) && s.pcb[s.idle].id == IDLE_ID && p != s.idle && p !in Bag(s)
    ensures Once(Fork(s, p, stale)) && Bag(Fork(s, p, stale)) == Bag(s) + multiset{p}
  {
    assert p != s.current;
    UnusedIdIsFresh(s);
    ForkBag(s, p, stale);
    UniqueWithNew(Bag(s), s.pcb, Fork(s, p, stale).pcb, s.idle, p);
  }

  // ---------- Runs ----------

  datatype Op =
    | TickOp(interval: nat, due: seq<int>)
    | ForkOp(address: int, stale: seq<nat>)
    | ExecOp
    | StateOp(process: int, state: ProcessState)

  /** sysExecve: the running process starts over, at the best level and with one quantum. */
  function Exec(s: Sched): (r: Sched)
    requires Shaped(s)
    ensures Shaped(r)
  {
    s.(pcb := s.pcb[s.current := s.pcb[s.current].(agingInterval := 0, priority := 0, quantums := 1)])
  }

  /** A tick, a fork, an execve, or a system call that changes the state of some process. */
  function Step(s: Sched, op: Op): (r: Sched)
    requires Shaped(s)
    ensures Shaped(r)
  {
    match op
    case TickOp(interval, due) => Tick(s, interval, due)
    case ForkOp(p, stale) => Fork(s, p, stale)
    case ExecOp => Exec(s)
    case StateOp(p, state) => if p in s.pcb && p != s.idle then SetState(s, p, state) else s
  }

  function Run(s: Sched, ops: seq<Op>): (r: Sched)
    requires Shaped(s)
    ensures Shaped(r)
    decreases |ops|
  {
    if ops == [] then s else Run(Step(s, ops[0]), ops[1..])
  }

  /** allocPCB returns the address of no live process. */
  ghost predicate FreshFork(s: Sched, op: Op) {
    op.ForkOp? ==> op.address != s.idle && op.address !in Bag(s)
  }

  ghost predicate FreshForks(s: Sched, ops: seq<Op>)
    requires Shaped(s)
    decreases |ops|
  {
    ops != [] ==>
      && FreshFork(s, ops[0])
      && FreshForks(Step(s, ops[0]), ops[1..])
  }

  /** Idle is never EXITED: setProcessState refuses that for pids up to IDLE_ID. */
  ghost predicate IdleSound(s: Sched)
    requires Shaped(s)
  {
    s.pcb[s.idle].id == IDLE_ID && s.pcb[s.idle].state != EXITED
  }

  /** An operation that moves nobody and keeps the pids leaves everybody in one place. */
  lemma SameQueuesOnce(s: Sched, s': Sched)
    requires Once(s) && Shaped(s')
    requires s'.queues == s.queues && s'.current == s.current && s'.idle == s.idle && s'.pcb.Keys == s.pcb.Keys
    requires forall p | p in s.pcb :: s'.pcb[p].id == s.pcb[p].id
    ensures Once(s')
  {
    UniquePreserved(Bag(s), Bag(s), s.pcb, s'.pcb, s.idle);
  }

  lemma TickOnce(s: Sched, interval: nat, due: seq<int>)
    requires Once(s) && IdleSound(s)
    ensures Once(Tick(s, interval, due)) && IdleSound(Tick(s, interval, due))
  {
    TickPopulation(s, interval, due);
  }

  lemma ForkOnce(s: Sched, p: int, stale: seq<nat>)
    requires Once(s) && IdleSound(s) && p != s.idle && p !in Bag(s)
    ensures Once(Fork(s, p, stale)) && IdleSound(Fork(s, p, stale))
  {
    ForkPopulation(s, p, stale);
  }

  lemma StateOnce(s: Sched, p: int, state: ProcessState)
    requires Once(s) && IdleSound(s) && p in s.pcb && p != s.idle
    ensures Once(SetState(s, p, state)) && IdleSound(SetState(s, p, state))
  {
    SameQueuesOnce(s, SetState(s, p, state));
  }

  lemma ExecOnce(s: Sched)
    requires Once(s) && IdleSound(s)
    ensures Once(Exec(s)) && IdleSound(Exec(s))
  {
    SameQueuesOnce(s, Exec(s));
  }

  lemma StepOnce(s: Sched, op: Op)
    requires Once(s) && IdleSound(s) && FreshFork(s, op)
    ensures Once(Step(s, op)) && IdleSound(Step(s, op))
  {
    match op
    case TickOp(interval, due) => TickOnce(s, interval, due);
    case ForkOp(p, stale) => ForkOnce(s, p, stale);
    case ExecOp => ExecOnce(s);
    case StateOp(p, state) => if p in s.pcb && p != s.idle { StateOnce(s, p, state); }
  }

  /**
    Over every run of ticks, forks and state changes, each process is in exactly one of current, one
    ready queue or the blocked list, and no two share a pid.
   */
  lemma {:induction false} EveryRunOnce(s: Sched, ops: seq<Op>)
    requires Once(s) && IdleSound(s) && FreshForks(s, ops)
    ensures Once(Run(s, ops)) && IdleSound(Run(s, ops))
    decreases |ops|
  {
    if ops != [] {
      StepOnce(s, ops[0]);
      EveryRunOnce(Step(s, ops[0]), ops[1..]);
    }
  }

  /** On no tick of the run is p EXITED. */
  ghost predicate NeverExits(s: Sched, ops: seq<Op>, p: int)
    requires Shaped(s) && p in s.pcb
    decreases |ops|
  {
    ops != [] ==>
      && (ops[0].TickOp? ==> s.pcb[p].state != EXITED)
      && p in Step(s, ops[0]).pcb
      && NeverExits(Step(s, ops[0]), ops[1..], p)
  }

  /** The tick drops p, which is READY. */
  ghost predicate DropsIt(s: Sched, op: Op, p: int)
    requires Shaped(s) && op.TickOp?
  {
    DropsReady(s, op.interval, op.due) && BeforeSwitch(s, op.interval, op.due).current == p
  }

  ghost predicate NeverDropped(s: Sched, ops: seq<Op>, p: int)
    requires Shaped(s)
    decreases |ops|
  {
    ops != [] ==>
      && (ops[0].TickOp? ==> !DropsIt(s, ops[0], p))
      && NeverDropped(Step(s, ops[0]), ops[1..], p)
  }

  lemma StepKeepsTheLiving(s: Sched, op: Op, p: int)
    requires Once(s) && IdleSound(s) && FreshFork(s, op) && p in Bag(s)
    requires op.TickOp? ==> s.pcb[p].state != EXITED && !DropsIt(s, op, p)
    ensures p in Bag(Step(s, op))
  {
    match op {
      case TickOp(interval, due) => TickPopulation(s, interval, due);
      case ForkOp(q, stale) => ForkPopulation(s, q, stale);
      case ExecOp =>
      case StateOp(_, _) =>
    }
  }

  /** A process that never exits and is never dropped is in the system at the end of every run. */
  lemma {:induction false} RunKeepsTheLiving(s: Sched, ops: seq<Op>, p: int)
    requires Once(s) && IdleSound(s) && FreshForks(s, ops) && p in Bag(s)
    requires NeverExits(s, ops, p) && NeverDropped(s, ops, p)
    ensures p in Bag(Run(s, ops))
    decreases |ops|
  {
    if ops != [] {
      StepOnce(s, ops[0]);
      StepKeepsTheLiving(s, ops[0], p);
      RunKeepsTheLiving(Step(s, ops[0]), ops[1..], p);
    }
  }

  lemma StepKeepsRepair(s: Sched, op: Op)
    requires Once(s) && IdleSound(s) && FreshFork(s, op)
    ensures Step(s, op).requeuesReady == s.requeuesReady
  {
    if op.TickOp? { TickPopulation(s, op.interval, op.due); }
  }

  lemma {:induction false} RepairDropsNobody(s: Sched, ops: seq<Op>, p: int)
    requires Once(s) && IdleSound(s) && FreshForks(s, ops) && s.requeuesReady
    ensures NeverDropped(s, ops, p)
    decreases |ops|
  {
    if ops != [] {
      StepOnce(s, ops[0]);
      StepKeepsRepair(s, ops[0]);
      RepairDropsNobody(Step(s, ops[0]), ops[1..], p);
      if ops[0].TickOp? { BeforeSwitchStep(s, ops[0].interval, ops[0].due); }
    }
  }

  /** With READY queued like RUNNING, nobody ever leaves the system but by exiting. */
  lemma RepairedRunKeepsTheLiving(s: Sched, ops: seq<Op>, p: int)
    requires Once(s) && IdleSound(s) && FreshForks(s, ops) && s.requeuesReady
    requires p in Bag(s) && NeverExits(s, ops, p)
    ensures p in Bag(Run(s, ops))
  {
    RepairDropsNobody(s, ops, p);
    RunKeepsTheLiving(s, ops, p);
  }
}
