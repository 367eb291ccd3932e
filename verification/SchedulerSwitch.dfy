/**
  What a call of scheduler does to whom: where the running process goes and who runs next, who sleeps and
  who is woken, how long a process keeps the processor, and that the exited are gone afterwards.
 */
module SchedulerSwitch {
  import opened Options
  import opened SchedulerSpec
  import opened SchedulerPopulation
  import opened SchedulerDrops

  // ---------- nextProcess ----------

  /** The ready queue k is the one for that aging interval: each but the last is 55 wide. */
  predicate InBand(aging: nat, k: nat) {
    k <= 5 && (k > 0 ==> 55 * k < aging) && (k < 5 ==> aging <= 55 * (k + 1))
  }

  lemma LevelIs(aging: nat, k: nat)
    ensures Level(aging) == k <==> InBand(aging, k)
  {
  }

  /** The list that the running process is due to join when it is switched away. */
  ghost predicate Joins(s: Sched, k: nat)
    requires s.current in s.pcb
  {
    var e := s.pcb[s.current];
    match e.state
    case BLOCKED => k == 6
    case YIELDED => k == 5
    case RUNNING => InBand(e.agingInterval, k)
    case READY => s.requeuesReady && InBand(e.agingInterval, k)
    case EXITED => false
  }

  predicate FirstNonEmpty(q: seq<seq<int>>, i: nat) {
    i < 6 <= |q| && q[i] != [] && forall j | 0 <= j < i :: q[j] == []
  }

  /** The head of the first of the six ready queues that is not empty runs and has left it; else idle runs. */
  ghost predicate RunsTheFirst(q: seq<seq<int>>, r: Sched) {
    && |q| == 7
    && (forall i: nat | FirstNonEmpty(q, i) :: r.current == q[i][0] && r.queues == q[i := q[i][1..]])
    && r.current in r.pcb && r.pcb[r.current].state == RUNNING
    && ((forall j | 0 <= j < 6 :: q[j] == []) ==>
         && r.current == r.idle && r.queues == q
         && r.pcb[r.current].agingInterval == 0 && r.pcb[r.current].quantums == 1)
  }

  lemma DispatchRuns(s: Sched)
    requires Shaped(s)
    ensures var r := Dispatch(s);
      && RunsTheFirst(s.queues, r) && r.idle == s.idle
      && (forall p | p in s.pcb && p != r.current :: r.pcb[p] == s.pcb[p])
      && (r.current != s.idle ==> r.pcb[r.current] == s.pcb[r.current].(state := RUNNING))
  {
    match FirstReady(s.queues, 0)
    case Some(i) =>
      assert FirstNonEmpty(s.queues, i);
      forall j: nat | FirstNonEmpty(s.queues, j) ensures j == i { FirstIsOne(s.queues, i, j); }
    case None =>
  }

  lemma FirstIsOne(q: seq<seq<int>>, i: nat, j: nat)
    requires FirstNonEmpty(q, i) && FirstNonEmpty(q, j)
    ensures i == j
  {
  }

  /** What the switch leaves of the running process itself, and of everybody else. */
  ghost predicate SwitchedBlocks(s: Sched, r: Sched, k: nat)
    requires s.current in s.pcb
  {
    var c, e := s.current, s.pcb[s.current];
    && r.pcb.Keys == s.pcb.Keys && r.current in r.pcb
    && (e.state == BLOCKED ==> r.current != c && r.pcb[c] == e)
    && (e.state != BLOCKED ==> r.pcb[c].state == if r.current == c then RUNNING else READY)
    && (e.state == RUNNING ==> r.pcb[c].quantums == k + 1 && r.pcb[c].priority == k)
    && r.pcb[c].agingInterval == e.agingInterval
    && (forall p | p in s.pcb && p != c && p != r.current :: r.pcb[p] == s.pcb[p])
    && (r.current != c && r.current != s.idle ==> r.pcb[r.current] == s.pcb[r.current].(state := RUNNING))
  }

  /** The running process before anybody is dispatched. */
  ghost predicate Left(e: PCB, e': PCB, k: nat) {
    && e'.agingInterval == e.agingInterval
    && e'.state == (if e.state == BLOCKED then BLOCKED else READY)
    && (e.state == BLOCKED ==> e' == e)
    && (e.state == RUNNING ==> e'.quantums == k + 1 && e'.priority == k)
  }

  lemma RequeueJoins(s: Sched, k: nat)
    requires Shaped(s) && !CurrentIsIdle(s) && Joins(s, k)
    ensures var r := Requeue(s);
      && k < |s.queues| && r.queues == s.queues[k := s.queues[k] + [s.current]]
      && r.current == s.current && r.idle == s.idle && r.pcb.Keys == s.pcb.Keys
      && Left(s.pcb[s.current], r.pcb[s.current], k)
      && forall p | p in s.pcb && p != s.current :: r.pcb[p] == s.pcb[p]
  {
    LevelIs(s.pcb[s.current].agingInterval, k);
  }

  lemma SwitchedQueues(s: Sched, k: nat)
    requires Shaped(s) && !CurrentIsIdle(s) && Joins(s, k)
    ensures k < |s.queues| && RunsTheFirst(s.queues[k := s.queues[k] + [s.current]], NextProcess(s))
  {
    RequeueJoins(s, k);
    DispatchRuns(Requeue(s));
  }

  lemma SwitchedStates(s: Sched, k: nat)
    requires Shaped(s) && !CurrentIsIdle(s) && Joins(s, k) && s.current != s.idle
    requires s.pcb[s.current].state == BLOCKED ==> NextProcess(s).current != s.current
    ensures SwitchedBlocks(s, NextProcess(s), k)
  {
    RequeueJoins(s, k);
    DispatchRuns(Requeue(s));
    SwitchedIs(s, Requeue(s), NextProcess(s), k);
  }

  /** nextProcess: the running process joins the list for its state, at the end, and the first ready one runs. */
  lemma SwitchedAway(s: Sched, k: nat)
    requires Once(s) && s.current != s.idle && Joins(s, k)
    ensures var r := NextProcess(s);
      && k < |s.queues| && RunsTheFirst(s.queues[k := s.queues[k] + [s.current]], r)
      && SwitchedBlocks(s, r, k)
  {
    CurrentIsIdleIff(s);
    if s.pcb[s.current].state == BLOCKED { BlockedIsNotNext(s); }
    SwitchedQueues(s, k);
    SwitchedStates(s, k);
  }

  lemma SwitchedIs(s: Sched, q: Sched, r: Sched, k: nat)
    requires s.current in s.pcb && q.pcb.Keys == s.pcb.Keys == r.pcb.Keys && q.idle == s.idle
    requires r.current in r.pcb && r.pcb[r.current].state == RUNNING
    requires Left(s.pcb[s.current], q.pcb[s.current], k)
    requires forall p | p in s.pcb && p != s.current :: q.pcb[p] == s.pcb[p]
    requires forall p | p in q.pcb && p != r.current :: r.pcb[p] == q.pcb[p]
    requires r.current != s.idle ==> r.pcb[r.current] == q.pcb[r.current].(state := RUNNING)
    requires s.current != s.idle && (s.pcb[s.current].state == BLOCKED ==> r.current != s.current)
    ensures SwitchedBlocks(s, r, k)
  {
  }

  lemma BlockedIsNotNext(s: Sched)
    requires Once(s) && s.current != s.idle && s.pcb[s.current].state == BLOCKED
    ensures NextProcess(s).current != s.current
  {
    CurrentIsIdleIff(s);
    var q := Requeue(s);
    match FirstReady(q.queues, 0)
    case Some(i) => CurrentIsNotQueued(s, i, 0);
    case None =>
  }

  /** Idle, and who is EXITED or as written READY, joins no list; idle, when somebody else runs, is READY. */
  lemma FallsThroughSwitch(s: Sched)
    requires Once(s) && (s.current == s.idle || FallsThrough(s))
    ensures var r := NextProcess(s);
      && RunsTheFirst(s.queues, r)
      && (s.current == s.idle && r.current != s.idle ==> s.idle in r.pcb && r.pcb[s.idle].state == READY)
  {
    CurrentIsIdleIff(s);
    DispatchRuns(Requeue(s));
  }

  // ---------- checkBlocked ----------

  /** p, if it is BLOCKED; p, if it is not and belongs into ready queue i. */
  function Sleeper(pcb: map<int, PCB>, p: int): seq<int>
    requires p in pcb
  {
    if pcb[p].state == BLOCKED then [p] else []
  }

  function Riser(pcb: map<int, PCB>, p: int, i: nat): seq<int>
    requires p in pcb
  {
    if pcb[p].state != BLOCKED && InBand(pcb[p].agingInterval, i) then [p] else []
  }

  /** Those of the list that are BLOCKED, in order. */
  function Asleep(pcb: map<int, PCB>, list: seq<int>): seq<int>
    requires forall k | 0 <= k < |list| :: list[k] in pcb
  {
    if list == [] then []
    else Sleeper(pcb, list[0]) + Asleep(pcb, list[1..])
  }

  /** Those of the list that are not, and belong into ready queue i. */
  function Woken(pcb: map<int, PCB>, list: seq<int>, i: nat): seq<int>
    requires forall k | 0 <= k < |list| :: list[k] in pcb
  {
    if list == [] then []
    else Riser(pcb, list[0], i) + Woken(pcb, list[1..], i)
  }

  ghost predicate SameStates(pcb: map<int, PCB>, pcb': map<int, PCB>) {
    && pcb'.Keys == pcb.Keys
    && forall p | p in pcb :: pcb'[p].state == pcb[p].state && pcb'[p].agingInterval == pcb[p].agingInterval
  }

  lemma {:induction false} SameSorting(pcb: map<int, PCB>, pcb': map<int, PCB>, list: seq<int>, i: nat)
    requires forall k | 0 <= k < |list| :: list[k] in pcb
    requires SameStates(pcb, pcb')
    ensures Asleep(pcb', list) == Asleep(pcb, list) && Woken(pcb', list, i) == Woken(pcb, list, i)
  {
    if list != [] {
      var p := list[0];
      assert pcb'[p].state == pcb[p].state;
      SameSorting(pcb, pcb', list[1..], i);
    }
  }

  lemma Joined(a: seq<int>, b: seq<int>, c: seq<int>)
    ensures (a + b) + c == a + (b + c)
  {
  }

  /** One node of the blocked list goes where it belongs. */
  lemma UnblockOneSorts(s: Sched, rest: seq<int>, i: nat) returns (r: Sched)
    requires Shaped(s) && (forall k | 0 <= k < |rest| :: rest[k] in s.pcb) && rest != [] && i < 6
    ensures Shaped(r) && SameStates(s.pcb, r.pcb) && Unblock(s, rest) == Unblock(r, rest[1..])
    ensures r.queues[6] == s.queues[6] + Sleeper(s.pcb, rest[0])
    ensures r.queues[i] == s.queues[i] + Riser(s.pcb, rest[0], i)
  {
    var p := rest[0];
    r := if s.pcb[p].state != BLOCKED then InsertInQueue(s, p) else Append(s, BLOCKED_LIST, p);
    LevelIs(s.pcb[p].agingInterval, i);
  }

  lemma {:induction false} UnblockSorts(s: Sched, rest: seq<int>, i: nat)
    requires Shaped(s) && (forall k | 0 <= k < |rest| :: rest[k] in s.pcb) && i < 6
    ensures var r := Unblock(s, rest);
      && r.queues[6] == s.queues[6] + Asleep(s.pcb, rest)
      && r.queues[i] == s.queues[i] + Woken(s.pcb, rest, i)
    decreases |rest|
  {
    if rest != [] {
      var s1 := UnblockOneSorts(s, rest, i);
      UnblockSorts(s1, rest[1..], i);
      SameSorting(s.pcb, s1.pcb, rest[1..], i);
      Joined(s.queues[6], Sleeper(s.pcb, rest[0]), Asleep(s.pcb, rest[1..]));
      Joined(s.queues[i], Riser(s.pcb, rest[0], i), Woken(s.pcb, rest[1..], i));
    }
  }

  /** checkBlocked: exactly the BLOCKED stay in the blocked list, and the others are queued by their aging, in order. */
  lemma CheckBlockedSorts(s: Sched, i: nat)
    requires Shaped(s) && i < 6
    ensures var r := CheckBlocked(s);
      && r.queues[6] == Asleep(s.pcb, s.queues[6])
      && r.queues[i] == s.queues[i] + Woken(s.pcb, s.queues[6], i)
  {
    UnblockSorts(s.(queues := s.queues[BLOCKED_LIST := []]), s.queues[BLOCKED_LIST], i);
  }

  lemma {:induction false} AsleepIsBlocked(pcb: map<int, PCB>, list: seq<int>)
    requires forall k | 0 <= k < |list| :: list[k] in pcb
    ensures forall p :: p in Asleep(pcb, list) <==> p in list && pcb[p].state == BLOCKED
  {
    if list != [] { AsleepIsBlocked(pcb, list[1..]); }
  }

  lemma {:induction false} WokenIsAwake(pcb: map<int, PCB>, list: seq<int>, i: nat)
    requires forall k | 0 <= k < |list| :: list[k] in pcb
    ensures forall p | p in Woken(pcb, list, i) :: p in list && pcb[p].state != BLOCKED
  {
    if list != [] { WokenIsAwake(pcb, list[1..], i); }
  }

  // ---------- No ready queue holds a BLOCKED process ----------

  ghost predicate AllAwake(s: Sched, list: seq<int>) {
    forall p | p in list :: p in s.pcb && s.pcb[p].state != BLOCKED
  }

  ghost predicate AllAsleep(s: Sched, list: seq<int>) {
    forall p | p in list :: p in s.pcb && s.pcb[p].state == BLOCKED
  }

  /** The six ready queues hold nobody who is BLOCKED. */
  ghost predicate ReadyAwake(s: Sched) {
    |s.queues| == 7 && forall i | 0 <= i < 6 :: AllAwake(s, s.queues[i])
  }

  /** From s to r nobody fell asleep. */
  ghost predicate NobodyAsleep(s: Sched, r: Sched) {
    r.pcb.Keys == s.pcb.Keys && forall p | p in s.pcb && r.pcb[p].state == BLOCKED :: s.pcb[p].state == BLOCKED
  }

  lemma StillAwake(s: Sched, r: Sched, list: seq<int>, list': seq<int>)
    requires NobodyAsleep(s, r) && AllAwake(s, list) && forall p | p in list' :: p in list
    ensures AllAwake(r, list')
  {
  }

  lemma KeptAwake(s: Sched, r: Sched)
    requires ReadyAwake(s) && NobodyAsleep(s, r) && r.queues == s.queues
    ensures ReadyAwake(r)
  {
    forall i | 0 <= i < 6 ensures AllAwake(r, r.queues[i]) { StillAwake(s, r, s.queues[i], r.queues[i]); }
  }

  lemma CheckBlockedQueueAwake(s: Sched, i: nat)
    requires Shaped(s) && i < 6 && AllAwake(s, s.queues[i])
    ensures AllAwake(CheckBlocked(s), CheckBlocked(s).queues[i])
  {
    CheckBlockedQueued(s);
    CheckBlockedSorts(s, i);
    WokenIsAwake(s.pcb, s.queues[6], i);
  }

  /** After checkBlocked the blocked list holds only BLOCKED processes, and no ready queue any. */
  lemma CheckBlockedAwake(s: Sched)
    requires Shaped(s) && ReadyAwake(s)
    ensures var r := CheckBlocked(s); ReadyAwake(r) && AllAsleep(r, r.queues[6])
  {
    forall i | 0 <= i < 6 ensures AllAwake(CheckBlocked(s), CheckBlocked(s).queues[i]) {
      CheckBlockedQueueAwake(s, i);
    }
    CheckBlockedQueued(s);
    CheckBlockedSorts(s, 0);
    AsleepIsBlocked(s.pcb, s.queues[6]);
  }

  lemma RequeueAwake(s: Sched)
    requires Shaped(s) && ReadyAwake(s)
    ensures ReadyAwake(Requeue(s)) && NobodyAsleep(s, Requeue(s))
  {
    forall i | 0 <= i < 6 ensures AllAwake(Requeue(s), Requeue(s).queues[i]) {
      RequeueQueueAwake(s, i);
    }
  }

  lemma RequeueQueueAwake(s: Sched, i: nat)
    requires Shaped(s) && i < 6 && AllAwake(s, s.queues[i])
    ensures AllAwake(Requeue(s), Requeue(s).queues[i])
  {
  }

  lemma DispatchAwake(s: Sched)
    requires Shaped(s) && ReadyAwake(s)
    ensures var r := Dispatch(s);
      && ReadyAwake(r) && r.pcb[r.current].state == RUNNING
      && (r.current != s.idle ==> s.pcb[r.current].state != BLOCKED)
  {
    match FirstReady(s.queues, 0)
    case Some(i) =>
      assert s.queues[i][0] in s.queues[i] && AllAwake(s, s.queues[i]);
      forall j | 0 <= j < 6 ensures AllAwake(Dispatch(s), Dispatch(s).queues[j]) {
        StillAwake(s, Dispatch(s), s.queues[j], Dispatch(s).queues[j]);
      }
    case None => KeptAwake(s, Dispatch(s));
  }

  /** nextProcess queues nobody BLOCKED as ready, and dispatches nobody who is. */
  lemma NextProcessAwake(s: Sched)
    requires Shaped(s) && ReadyAwake(s)
    ensures var r := NextProcess(s);
      && ReadyAwake(r) && r.pcb[r.current].state == RUNNING
      && (r.current != s.idle ==> AllAwake(s, [r.current]))
  {
    RequeueAwake(s);
    DispatchAwake(Requeue(s));
  }

  lemma UnlinkedAwake(s: Sched, i: nat, k: nat)
    requires Shaped(s) && ReadyAwake(s) && i < LISTS && k < |s.queues[i]|
    ensures ReadyAwake(Unlinked(s, i, k))
  {
    var list := s.queues[i];
    var u := Unlinked(s, i, k);
    assert list == list[..k] + [list[k]] + list[k + 1..];
    forall j | 0 <= j < 6 ensures AllAwake(u, u.queues[j]) { StillAwake(s, u, s.queues[j], u.queues[j]); }
  }

  lemma DeleteAwake(s: Sched, p: int)
    requires Shaped(s) && ReadyAwake(s) && p in s.pcb
    ensures ReadyAwake(DeleteProcess(s, p))
  {
    DeleteProcessOnlyReadies(s, p);
    KeptAwake(s, DeleteProcess(s, p));
  }

  lemma {:induction false} SweepListAwake(s: Sched, i: nat, k: nat)
    requires Shaped(s) && ReadyAwake(s) && i < LISTS && k <= |s.queues[i]|
    ensures ReadyAwake(SweepList(s, i, k))
    decreases |s.queues[i]| - k
  {
    if k < |s.queues[i]| {
      if s.pcb[s.queues[i][k]].state == EXITED {
        UnlinkedAwake(s, i, k);
        DeleteAwake(Unlinked(s, i, k), s.queues[i][k]);
        SweepListAwake(DeleteProcess(Unlinked(s, i, k), s.queues[i][k]), i, k);
      } else {
        SweepListAwake(s, i, k + 1);
      }
    }
  }

  lemma {:induction false} SweepAwake(s: Sched, i: nat)
    requires Shaped(s) && ReadyAwake(s) && i <= LISTS
    ensures ReadyAwake(Sweep(s, i))
    decreases LISTS - i
  {
    if i < LISTS {
      SweepListAwake(s, i, 0);
      SweepAwake(SweepList(s, i, 0), i + 1);
    }
  }

  lemma CheckExitedAwake(s: Sched)
    requires Shaped(s) && ReadyAwake(s)
    ensures ReadyAwake(CheckExited(s))
  {
    var s1 := Sweep(s, 0);
    SweepAwake(s, 0);
    if s1.pcb[s1.current].state == EXITED {
      DeleteAwake(s1, s1.current);
      CheckBlockedAwake(DeleteProcess(s1, s1.current));
      NextProcessAwake(CheckBlocked(DeleteProcess(s1, s1.current)));
    }
  }

  /** A tick keeps BLOCKED processes out of the ready queues, and none of them runs after it. */
  lemma TickAwake(s: Sched, interval: nat, due: seq<int>)
    requires Shaped(s) && ReadyAwake(s)
    ensures var r := Tick(s, interval, due); ReadyAwake(r) && r.pcb[r.current].state != BLOCKED
  {
    var s1 := Wake(Age(s, interval), due);
    KeptAwake(s, s1);
    CheckBlockedAwake(s1);
    CheckExitedAwake(CheckBlocked(s1));
    EndOfTickAwake(CheckExited(CheckBlocked(s1)));
  }

  lemma EndOfTickAwake(s: Sched)
    requires Shaped(s) && ReadyAwake(s)
    ensures var b := SpendQuantum(s);
      && ReadyAwake(b) && (!MustSwitch(b) ==> b.pcb[b.current].state != BLOCKED)
      && ReadyAwake(NextProcess(b)) && NextProcess(b).pcb[NextProcess(b).current].state == RUNNING
  {
    KeptAwake(s, SpendQuantum(s));
    NextProcessAwake(SpendQuantum(s));
  }

  /** System calls block nobody but their caller, who then makes no other until it is scheduled again. */
  ghost predicate BlocksOnlyCurrent(s: Sched, ops: seq<Op>)
    requires Shaped(s)
    decreases |ops|
  {
    ops != [] ==> BlocksCurrent(s, ops[0]) && BlocksOnlyCurrent(Step(s, ops[0]), ops[1..])
  }

  ghost predicate BlocksCurrent(s: Sched, op: Op)
    requires s.current in s.pcb
  {
    && (op.StateOp? && op.state == BLOCKED ==> op.process == s.current)
    && (op.ForkOp? ==> s.pcb[s.current].state != BLOCKED)
  }

  lemma ForkAwake(s: Sched, p: int, stale: seq<nat>)
    requires Once(s) && ReadyAwake(s) && p != s.idle && p !in Bag(s) && s.pcb[s.current].state != BLOCKED
    ensures ReadyAwake(Fork(s, p, stale))
  {
    var r := Fork(s, p, stale);
    forall i | 0 <= i < 6 ensures AllAwake(r, r.queues[i]) {
      assert AllAwake(s, s.queues[i]);
    }
  }

  lemma StateAwake(s: Sched, p: int, state: ProcessState)
    requires Once(s) && ReadyAwake(s) && p in s.pcb && p != s.idle && (state == BLOCKED ==> p == s.current)
    ensures ReadyAwake(SetState(s, p, state))
  {
    var r := SetState(s, p, state);
    forall i | 0 <= i < 6 ensures AllAwake(r, r.queues[i]) {
      assert AllAwake(s, s.queues[i]);
      if p in s.queues[i] && p == s.current {
        var k :| 0 <= k < |s.queues[i]| && s.queues[i][k] == p;
        CurrentIsNotQueued(s, i, k);
      }
    }
  }

  lemma StepAwake(s: Sched, op: Op)
    requires Once(s) && ReadyAwake(s) && FreshFork(s, op) && BlocksCurrent(s, op)
    ensures ReadyAwake(Step(s, op))
  {
    match op {
      case TickOp(interval, due) => TickAwake(s, interval, due);
      case ForkOp(p, stale) => ForkAwake(s, p, stale);
      case ExecOp => KeptAwake(s, Step(s, op));
      case StateOp(p, state) => if p in s.pcb && p != s.idle { StateAwake(s, p, state); }
    }
  }

  /** Over every run no ready queue ever holds a BLOCKED process. */
  lemma {:induction false} RunAwake(s: Sched, ops: seq<Op>)
    requires Once(s) && IdleSound(s) && FreshForks(s, ops) && BlocksOnlyCurrent(s, ops) && ReadyAwake(s)
    ensures ReadyAwake(Run(s, ops))
    decreases |ops|
  {
    if ops != [] {
      StepOnce(s, ops[0]);
      StepAwake(s, ops[0]);
      RunAwake(Step(s, ops[0]), ops[1..]);
    }
  }

  // ---------- The exited are gone ----------

  predicate NotExited(s: Sched, p: int) { p in s.pcb && s.pcb[p].state != EXITED }

  /** The first k processes of list i, and all of the lists before it, have not exited. */
  ghost predicate SweptTo(s: Sched, i: nat, k: nat) {
    && |s.queues| == 7 && i <= 7 && (i < 7 ==> k <= |s.queues[i]|)
    && (forall j, l | 0 <= j < i && 0 <= l < |s.queues[j]| :: NotExited(s, s.queues[j][l]))
    && (i < 7 ==> forall l | 0 <= l < k :: NotExited(s, s.queues[i][l]))
  }

  lemma SweptOne(s: Sched, i: nat, k: nat) returns (r: Sched)
    requires Shaped(s) && i < 7 && SweptTo(s, i, k) && k < |s.queues[i]| && s.pcb[s.queues[i][k]].state == EXITED
    ensures r == DeleteProcess(Unlinked(s, i, k), s.queues[i][k]) && Shaped(r) && SweptTo(r, i, k)
    ensures r.queues == Unlinked(s, i, k).queues
  {
    r := DeleteProcess(Unlinked(s, i, k), s.queues[i][k]);
    DeleteProcessOnlyReadies(Unlinked(s, i, k), s.queues[i][k]);
  }

  lemma {:induction false} SweepListSweeps(s: Sched, i: nat, k: nat)
    requires Shaped(s) && i < 7 && SweptTo(s, i, k)
    ensures SweptTo(SweepList(s, i, k), i + 1, 0)
    decreases |s.queues[i]| - k
  {
    if k < |s.queues[i]| {
      if s.pcb[s.queues[i][k]].state == EXITED {
        var r := SweptOne(s, i, k);
        SweepListSweeps(r, i, k);
      } else {
        SweepListSweeps(s, i, k + 1);
      }
    }
  }

  lemma {:induction false} SweepSweeps(s: Sched, i: nat)
    requires Shaped(s) && i <= 7 && SweptTo(s, i, 0)
    ensures SweptTo(Sweep(s, i), 7, 0)
    decreases 7 - i
  {
    if i < 7 {
      SweepListSweeps(s, i, 0);
      SweepSweeps(SweepList(s, i, 0), i + 1);
    }
  }

  /** Nobody in the system has exited. */
  ghost predicate NoneExited(s: Sched) { forall p | p in Bag(s) :: NotExited(s, p) }

  lemma SweptIsNoneExited(s: Sched)
    requires Shaped(s) && SweptTo(s, 7, 0) && NotExited(s, s.current)
    ensures NoneExited(s)
  {
    forall p | p in Bag(s) ensures NotExited(s, p) {
      if p in Queued(s.queues) {
        var i, k := QueuedIsSomewhere(s.queues, p);
      }
    }
  }

  /** Whoever is in r was in s, and nobody became EXITED. */
  lemma StillNoneExited(s: Sched, r: Sched)
    requires NoneExited(s) && NoNewExit(s, r) && Bag(r) <= Bag(s)
    ensures NoneExited(r)
  {
    forall p | p in Bag(r) ensures NotExited(r, p) { assert p in Bag(s); }
  }

  lemma CheckExitedBuries(s: Sched)
    requires Once(s)
    ensures NoneExited(CheckExited(s))
  {
    var s1 := Sweep(s, 0);
    SweepSweeps(s, 0);
    SweepBag(s, 0);
    if s1.pcb[s1.current].state == EXITED {
      DropsTheExited(s1);
    } else {
      SweptIsNoneExited(s1);
    }
  }

  /** Nobody but the running process may have exited. */
  ghost predicate OthersAlive(s: Sched) { forall p | p in Bag(s) && p != s.current :: NotExited(s, p) }

  lemma StillOthersAlive(s: Sched, r: Sched)
    requires OthersAlive(s) && NoNewExit(s, r) && Bag(r) == Bag(s) && r.current == s.current
    ensures OthersAlive(r)
  {
    forall p | p in Bag(r) && p != r.current ensures NotExited(r, p) { assert p in Bag(s); }
  }

  /** nextProcess drops the running process if it has exited. */
  lemma NextProcessBuries(s: Sched)
    requires Once(s) && OthersAlive(s)
    ensures NoneExited(NextProcess(s))
  {
    var r := NextProcess(s);
    NextProcessStep(s);
    forall p | p in Bag(r) ensures NotExited(r, p) {
      assert p in Bag(s);
    }
  }

  /** When only the running process has exited, nobody has after it is deleted and switched away. */
  lemma DropsTheExited(s: Sched)
    requires Once(s) && SweptTo(s, 7, 0)
    ensures NoneExited(NextProcess(CheckBlocked(DeleteProcess(s, s.current))))
  {
    var s1 := DeleteProcess(s, s.current);
    forall p | p in Bag(s) && p != s.current ensures NotExited(s, p) { OthersNotExited(s, p); }
    DeleteProcessBag(s, s.current);
    StillOthersAlive(s, s1);
    CheckBlockedBag(s1);
    StillOthersAlive(s1, CheckBlocked(s1));
    NextProcessBuries(CheckBlocked(s1));
  }

  lemma OthersNotExited(s: Sched, p: int)
    requires Shaped(s) && SweptTo(s, 7, 0) && p in Bag(s)
    ensures p == s.current || NotExited(s, p)
  {
    if p in Queued(s.queues) { var i, k := QueuedIsSomewhere(s.queues, p); }
  }

  /** After every tick nobody in the system is EXITED: whoever had exited is gone, or was made READY by its child. */
  lemma TickBuries(s: Sched, interval: nat, due: seq<int>)
    requires Once(s)
    ensures NoneExited(Tick(s, interval, due))
  {
    var r := BeforeSweep(s, interval, due);
    UntilTheSweep(s, interval, due);
    CheckExitedBuries(r);
    CheckExitedStep(r);
    EndOfTickBuries(CheckExited(r));
  }

  lemma EndOfTickBuries(s: Sched)
    requires Once(s) && NoneExited(s)
    ensures NoneExited(SpendQuantum(s)) && NoneExited(NextProcess(SpendQuantum(s)))
  {
    var b := SpendQuantum(s);
    SpendStep(s);
    StillNoneExited(s, b);
    NextProcessStep(b);
    StillNoneExited(b, NextProcess(b));
  }

  // ---------- How long a process keeps the processor ----------

  lemma {:induction false} NothingToSweepIn(s: Sched, i: nat, k: nat)
    requires Shaped(s) && i < 7 && k <= |s.queues[i]|
    requires forall l | 0 <= l < |s.queues[i]| :: NotExited(s, s.queues[i][l])
    ensures SweepList(s, i, k) == s
    decreases |s.queues[i]| - k
  {
    if k < |s.queues[i]| {
      assert NotExited(s, s.queues[i][k]);
      NothingToSweepIn(s, i, k + 1);
    }
  }

  lemma {:induction false} NothingToSweep(s: Sched, i: nat)
    requires Once(s) && NoneExited(s) && i <= 7
    ensures Sweep(s, i) == s
    decreases 7 - i
  {
    if i < 7 {
      forall l | 0 <= l < |s.queues[i]| ensures NotExited(s, s.queues[i][l]) {
        InQueued(s.queues, i, l);
        assert s.queues[i][l] in Bag(s);
      }
      NothingToSweepIn(s, i, 0);
      NothingToSweep(s, i + 1);
    }
  }

  /** Nobody exited, and a process other than idle has the processor and is not due to be woken. */
  ghost predicate Undisturbed(s: Sched, due: seq<int>) {
    Once(s) && NoneExited(s) && s.current != s.idle && s.current !in due
  }

  predicate IsRunning(s: Sched) { s.current in s.pcb && s.pcb[s.current].state == RUNNING }

  /** Then a tick up to its decision spends one of its quantums and adds the interval to half its age. */
  lemma QuietTick(s: Sched, interval: nat, due: seq<int>)
    requires Undisturbed(s, due)
    ensures var b, e := BeforeSwitch(s, interval, due), s.pcb[s.current];
      && Once(b) && NoneExited(b) && b.current == s.current && b.idle == s.idle
      && b.queues == CheckBlocked(Wake(Age(s, interval), due)).queues
      && b.pcb[s.current] == e.(quantums := e.quantums - 1, agingInterval := e.agingInterval / 2 + interval)
  {
    UntilTheSweep(s, interval, due);
    QuietSweep(s, interval, due);
    BeforeSwitchStep(s, interval, due);
    StillNoneExited(s, BeforeSwitch(s, interval, due));
    QuietAging(s, interval, due);
  }

  lemma QuietSweep(s: Sched, interval: nat, due: seq<int>)
    requires Undisturbed(s, due)
    ensures BeforeSwitch(s, interval, due) == SpendQuantum(BeforeSweep(s, interval, due))
  {
    var r := BeforeSweep(s, interval, due);
    UntilTheSweep(s, interval, due);
    forall p | p in Bag(r) ensures NotExited(r, p) { assert p in Bag(s); }
    NothingToSweep(r, 0);
    assert s.current in Bag(r);
  }

  lemma QuietAging(s: Sched, interval: nat, due: seq<int>)
    requires Undisturbed(s, due)
    ensures var r, e := BeforeSweep(s, interval, due), s.pcb[s.current];
      s.current in r.pcb && r.pcb[s.current] == e.(agingInterval := e.agingInterval / 2 + interval)
  {
    var s1 := Wake(Age(s, interval), due);
    AgeStep(s, interval);
    WakeStep(Age(s, interval), due);
    CheckBlockedKeepsCurrent(s1);
  }

  /** With more than one quantum left it runs on, with one less. */
  lemma KeepsRunning(s: Sched, interval: nat, due: seq<int>)
    requires Undisturbed(s, due) && IsRunning(s) && s.pcb[s.current].quantums > 1
    ensures var r := Tick(s, interval, due);
      && Once(r) && NoneExited(r) && r.current == s.current && r.idle == s.idle
      && r.pcb[s.current].state == RUNNING && r.pcb[s.current].quantums == s.pcb[s.current].quantums - 1
  {
    QuietTick(s, interval, due);
  }

  /** The list it joins when the tick takes the processor away: it has blocked or yielded, or spent its quantums. */
  ghost predicate LeavesFor(s: Sched, interval: nat, k: nat)
    requires s.current in s.pcb
  {
    var e := s.pcb[s.current];
    match e.state
    case BLOCKED => k == 6
    case YIELDED => k == 5
    case RUNNING => e.quantums <= 1 && InBand(e.agingInterval / 2 + interval, k)
    case _ => false
  }

  /** Then the tick queues it there, last, and the first ready process runs. */
  lemma GivesWay(s: Sched, interval: nat, due: seq<int>, k: nat)
    requires Undisturbed(s, due) && LeavesFor(s, interval, k)
    ensures var r, c, q := Tick(s, interval, due), s.current, CheckBlocked(Wake(Age(s, interval), due)).queues;
      && |q| == 7 && RunsTheFirst(q[k := q[k] + [c]], r) && c in r.pcb
      && (s.pcb[c].state == BLOCKED ==> r.current != c && r.pcb[c].state == BLOCKED)
      && (s.pcb[c].state != BLOCKED ==> r.pcb[c].state == if r.current == c then RUNNING else READY)
      && (s.pcb[c].state == RUNNING ==> r.pcb[c].quantums == k + 1 && r.pcb[c].priority == k)
  {
    QuietTick(s, interval, due);
    SwitchedAway(BeforeSwitch(s, interval, due), k);
  }

  /** A process that starts over with execve is queued at its next tick, at the level of the time until then. */
  lemma GivesWayAfterExec(s: Sched, interval: nat, due: seq<int>, k: nat)
    requires Undisturbed(s, due) && IsRunning(s) && InBand(interval, k)
    ensures var r, c := Tick(Exec(s), interval, due), s.current;
      && c in r.pcb && r.pcb[c].state == (if r.current == c then RUNNING else READY)
      && r.pcb[c].quantums == k + 1 && r.pcb[c].priority == k
  {
    SameQueuesOnce(s, Exec(s));
    StillNoneExited(s, Exec(s));
    GivesWay(Exec(s), interval, due, k);
  }

  /** Whoever runs after a tick is RUNNING, or READY and about to be dropped; never BLOCKED, YIELDED or EXITED. */
  lemma TickLeavesARunner(s: Sched, interval: nat, due: seq<int>)
    requires Once(s)
    ensures var r := Tick(s, interval, due); r.pcb[r.current].state == RUNNING || r.pcb[r.current].state == READY
  {
    var b := BeforeSwitch(s, interval, due);
    BeforeSwitchStep(s, interval, due);
    NextProcessStep(b);
  }

  ghost predicate TicksWithout(ops: seq<Op>, p: int) {
    forall k | 0 <= k < |ops| :: ops[k].TickOp? && p !in ops[k].due
  }

  /** A process keeps the processor for as many ticks as it has quantums, less the one that switches it away. */
  lemma {:induction false} RunsItsQuantums(s: Sched, ops: seq<Op>)
    requires Undisturbed(s, []) && IsRunning(s)
    requires TicksWithout(ops, s.current) && |ops| < s.pcb[s.current].quantums
    ensures var r := Run(s, ops);
      && Undisturbed(r, []) && IsRunning(r) && r.current == s.current
      && r.pcb[r.current].quantums == s.pcb[s.current].quantums - |ops|
    decreases |ops|
  {
    if ops != [] {
      assert ops[0].TickOp? && s.current !in ops[0].due;
      KeepsRunning(s, ops[0].interval, ops[0].due);
      assert forall k | 0 <= k < |ops[1..]| :: ops[1..][k] == ops[k + 1];
      RunsItsQuantums(Step(s, ops[0]), ops[1..]);
    }
  }
}
