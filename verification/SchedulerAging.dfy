/**
  The aging interval over runs of the scheduler: it stays bounded by twice the longest time a process
  runs at a stretch, so that short-running processes are always queued at level 0.
 */
module SchedulerAging {
  import opened Options
  import opened SchedulerSpec
  import opened SchedulerPopulation

  // ---------- Only Age changes an aging interval, but for that of idle ----------

  ghost predicate KeepsAges(s: Sched, r: Sched) {
    && r.pcb.Keys == s.pcb.Keys && r.idle == s.idle
    && forall p | p in s.pcb ::
         r.pcb[p].agingInterval == s.pcb[p].agingInterval || (p == s.idle && r.pcb[p].agingInterval == 0)
  }

  /** No aging interval is above the bound. */
  ghost predicate Young(s: Sched, bound: nat) {
    forall p | p in s.pcb :: s.pcb[p].agingInterval <= bound
  }

  /** The queues of levels 1 to 4 have lost processes at most. */
  ghost predicate MiddleShrinks(s: Sched, r: Sched) {
    && |s.queues| == LISTS && |r.queues| == LISTS
    && forall i | 1 <= i <= 4 :: multiset(r.queues[i]) <= multiset(s.queues[i])
  }

  /** Nobody's age changed, and if nobody had aged beyond one quantum, nobody was queued at levels 1 to 4. */
  ghost predicate Calm(s: Sched, r: Sched) {
    KeepsAges(s, r) && (Young(s, QUANTUM_SIZE) ==> MiddleShrinks(s, r))
  }

  lemma CalmTransitive(s: Sched, s1: Sched, s2: Sched)
    requires Calm(s, s1) && Calm(s1, s2)
    ensures Calm(s, s2)
  {
  }

  lemma CalmKeepsYoung(s: Sched, r: Sched, bound: nat)
    requires KeepsAges(s, r) && Young(s, bound)
    ensures Young(r, bound)
  {
  }

  /** insertInQueue puts a process that has not aged beyond one quantum at the end of level 0. */
  lemma InsertsAtLevelZero(s: Sched, p: int)
    requires Shaped(s) && p in s.pcb && s.pcb[p].agingInterval <= QUANTUM_SIZE
    ensures var r := InsertInQueue(s, p);
      r.queues == s.queues[0 := s.queues[0] + [p]] && r.pcb[p].priority == 0 && Calm(s, r)
  {
  }

  lemma RequeueKeepsAges(s: Sched)
    requires Shaped(s)
    ensures KeepsAges(s, Requeue(s))
  {
  }

  lemma RequeueShrinks(s: Sched)
    requires Shaped(s) && Young(s, QUANTUM_SIZE)
    ensures MiddleShrinks(s, Requeue(s))
  {
  }

  lemma RequeueIsCalm(s: Sched)
    requires Shaped(s)
    ensures Calm(s, Requeue(s))
  {
    RequeueKeepsAges(s);
    if Young(s, QUANTUM_SIZE) { RequeueShrinks(s); }
  }

  lemma DispatchIsCalm(s: Sched)
    requires Shaped(s)
    ensures Calm(s, Dispatch(s))
  {
    match FirstReady(s.queues, 0)
    case Some(i) => assert s.queues[i] == [s.queues[i][0]] + s.queues[i][1..];
    case None =>
  }

  lemma NextProcessIsCalm(s: Sched)
    requires Shaped(s)
    ensures Calm(s, NextProcess(s))
  {
    RequeueIsCalm(s);
    DispatchIsCalm(Requeue(s));
    CalmTransitive(s, Requeue(s), NextProcess(s));
  }

  lemma {:induction false} UnblockIsCalm(s: Sched, rest: seq<int>)
    requires Shaped(s) && forall k | 0 <= k < |rest| :: rest[k] in s.pcb
    ensures Calm(s, Unblock(s, rest))
    decreases |rest|
  {
    if rest != [] {
      var s1 := if s.pcb[rest[0]].state != BLOCKED then InsertInQueue(s, rest[0])
                else Append(s, BLOCKED_LIST, rest[0]);
      UnblockIsCalm(s1, rest[1..]);
      CalmTransitive(s, s1, Unblock(s, rest));
    }
  }

  lemma CheckBlockedIsCalm(s: Sched)
    requires Shaped(s)
    ensures Calm(s, CheckBlocked(s))
  {
    UnblockIsCalm(s.(queues := s.queues[BLOCKED_LIST := []]), s.queues[BLOCKED_LIST]);
  }

  lemma DeleteIsCalm(s: Sched, p: int)
    requires Shaped(s) && p in s.pcb
    ensures Calm(s, DeleteProcess(s, p))
  {
    DeleteProcessOnlyReadies(s, p);
  }

  lemma UnlinkIsCalm(s: Sched, i: nat, k: nat)
    requires Shaped(s) && i < LISTS && k < |s.queues[i]|
    ensures Calm(s, Unlinked(s, i, k))
  {
    var list := s.queues[i];
    assert list == list[..k] + [list[k]] + list[k + 1..];
  }

  lemma {:induction false} SweepListIsCalm(s: Sched, i: nat, k: nat)
    requires Shaped(s) && i < LISTS && k <= |s.queues[i]|
    ensures Calm(s, SweepList(s, i, k))
    decreases |s.queues[i]| - k
  {
    if k < |s.queues[i]| {
      if s.pcb[s.queues[i][k]].state == EXITED {
        var u := Unlinked(s, i, k);
        var r := DeleteProcess(u, s.queues[i][k]);
        UnlinkIsCalm(s, i, k);
        DeleteIsCalm(u, s.queues[i][k]);
        SweepListIsCalm(r, i, k);
        CalmTransitive(s, u, r);
        CalmTransitive(s, r, SweepList(s, i, k));
      } else {
        SweepListIsCalm(s, i, k + 1);
      }
    }
  }

  lemma {:induction false} SweepIsCalm(s: Sched, i: nat)
    requires Shaped(s) && i <= LISTS
    ensures Calm(s, Sweep(s, i))
    decreases LISTS - i
  {
    if i < LISTS {
      SweepListIsCalm(s, i, 0);
      SweepIsCalm(SweepList(s, i, 0), i + 1);
      CalmTransitive(s, SweepList(s, i, 0), Sweep(s, i));
    }
  }

  lemma CheckExitedIsCalm(s: Sched)
    requires Shaped(s)
    ensures Calm(s, CheckExited(s))
  {
    var s1 := Sweep(s, 0);
    SweepIsCalm(s, 0);
    if s1.pcb[s1.current].state == EXITED {
      var s2 := DeleteProcess(s1, s1.current);
      DeleteIsCalm(s1, s1.current);
      CalmTransitive(s, s1, s2);
      CheckBlockedIsCalm(s2);
      CalmTransitive(s, s2, CheckBlocked(s2));
      NextProcessIsCalm(CheckBlocked(s2));
      CalmTransitive(s, CheckBlocked(s2), CheckExited(s));
    }
  }

  lemma WakeIsCalm(s: Sched, due: seq<int>)
    requires Shaped(s)
    ensures Calm(s, Wake(s, due))
  {
  }

  lemma SpendQuantumIsCalm(s: Sched)
    requires Shaped(s)
    ensures Calm(s, SpendQuantum(s))
  {
  }

  /** From the sweep to the end of a tick. */
  lemma EndOfTickIsCalm(s: Sched)
    requires Shaped(s)
    ensures var r := SpendQuantum(CheckExited(s)); Calm(s, r) && Calm(s, NextProcess(r))
  {
    var s1 := CheckExited(s);
    var r := SpendQuantum(s1);
    CheckExitedIsCalm(s);
    SpendQuantumIsCalm(s1);
    CalmTransitive(s, s1, r);
    NextProcessIsCalm(r);
    CalmTransitive(s, r, NextProcess(r));
  }

  /** After Age, the rest of a tick changes nobody's age. */
  lemma TickIsCalm(s: Sched, interval: nat, due: seq<int>)
    requires Shaped(s)
    ensures Calm(Age(s, interval), Tick(s, interval, due))
  {
    var s0 := Age(s, interval);
    var s1 := Wake(s0, due);
    WakeIsCalm(s0, due);
    CheckBlockedIsCalm(s1);
    CalmTransitive(s0, s1, CheckBlocked(s1));
    EndOfTickIsCalm(CheckBlocked(s1));
    CalmTransitive(s0, CheckBlocked(s1), Tick(s, interval, due));
  }

  /**
    Over a tick half the age of the running process, and the interval measured, become its age, and nobody
    else's age changes; idle's is set to 0 whenever it is dispatched.
   */
  lemma TickAges(s: Sched, interval: nat, due: seq<int>)
    requires Shaped(s)
    ensures var r := Tick(s, interval, due);
      && r.pcb.Keys == s.pcb.Keys
      && forall p | p in s.pcb ::
           || r.pcb[p].agingInterval ==
                (if p == s.current then s.pcb[p].agingInterval / 2 + interval else s.pcb[p].agingInterval)
           || (p == s.idle && r.pcb[p].agingInterval == 0)
  {
    TickIsCalm(s, interval, due);
  }

  // ---------- Runs ----------

  /** No process of the run was measured to have run for longer than D. */
  ghost predicate ShortIntervals(ops: seq<Op>, D: nat) {
    forall k | 0 <= k < |ops| :: ops[k].TickOp? ==> ops[k].interval <= D
  }

  lemma ShortTail(ops: seq<Op>, D: nat)
    requires ShortIntervals(ops, D) && ops != []
    ensures (ops[0].TickOp? ==> ops[0].interval <= D) && ShortIntervals(ops[1..], D)
  {
    forall k | 0 <= k < |ops[1..]| ensures ops[1..][k].TickOp? ==> ops[1..][k].interval <= D {
      assert ops[1..][k] == ops[k + 1];
    }
  }

  lemma TickStaysYoung(s: Sched, interval: nat, due: seq<int>, D: nat)
    requires Shaped(s) && Young(s, 2 * D) && interval <= D
    ensures Young(Tick(s, interval, due), 2 * D)
    ensures 2 * D <= QUANTUM_SIZE ==> MiddleShrinks(s, Tick(s, interval, due))
  {
    var s0 := Age(s, interval);
    TickIsCalm(s, interval, due);
    assert Young(s0, 2 * D);
    CalmKeepsYoung(s0, Tick(s, interval, due), 2 * D);
    if 2 * D <= QUANTUM_SIZE { assert Young(s0, QUANTUM_SIZE); }
  }

  lemma StepStaysYoung(s: Sched, op: Op, D: nat)
    requires Shaped(s) && Young(s, 2 * D) && (op.TickOp? ==> op.interval <= D)
    ensures Young(Step(s, op), 2 * D)
    ensures 2 * D <= QUANTUM_SIZE ==> MiddleShrinks(s, Step(s, op))
  {
    match op
    case TickOp(interval, due) => TickStaysYoung(s, interval, due, D);
    case ForkOp(p, stale) =>
    case ExecOp =>
    case StateOp(p, state) =>
  }

  lemma ShrinksTransitive(s: Sched, s1: Sched, s2: Sched)
    requires MiddleShrinks(s, s1) && MiddleShrinks(s1, s2)
    ensures MiddleShrinks(s, s2)
  {
  }

  /** If no process is measured above D, no aging interval of any state of the run is above 2D. */
  lemma {:induction false} RunStaysYoung(s: Sched, ops: seq<Op>, D: nat)
    requires Shaped(s) && Young(s, 2 * D) && ShortIntervals(ops, D)
    ensures Young(Run(s, ops), 2 * D)
    ensures 2 * D <= QUANTUM_SIZE ==> MiddleShrinks(s, Run(s, ops))
    decreases |ops|
  {
    if ops != [] {
      ShortTail(ops, D);
      var s1 := Step(s, ops[0]);
      StepStaysYoung(s, ops[0], D);
      RunStaysYoung(s1, ops[1..], D);
      if 2 * D <= QUANTUM_SIZE { ShrinksTransitive(s, s1, Run(s, ops)); }
    }
  }

  /**
    With D up to 27: after every run insertInQueue puts every process at the end of level 0, and over
    the whole run nobody was added to the queues of levels 1 to 4.
   */
  lemma ShortRunnersStayAtLevelZero(s: Sched, ops: seq<Op>, D: nat)
    requires Shaped(s) && Young(s, 2 * D) && ShortIntervals(ops, D) && D <= 27
    ensures var r := Run(s, ops);
      && MiddleShrinks(s, r)
      && forall p | p in r.pcb ::
           InsertInQueue(r, p).queues == r.queues[0 := r.queues[0] + [p]] && InsertInQueue(r, p).pcb[p].priority == 0
  {
    RunStaysYoung(s, ops, D);
    var r := Run(s, ops);
    forall p | p in r.pcb
      ensures InsertInQueue(r, p).queues == r.queues[0 := r.queues[0] + [p]] && InsertInQueue(r, p).pcb[p].priority == 0
    {
      InsertsAtLevelZero(r, p);
    }
  }

  // ---------- One process ----------

  /** The end of the run, and how many of its ticks found p running. */
  function Watch(s: Sched, ops: seq<Op>, p: int): (r: (Sched, nat))
    requires Shaped(s)
    decreases |ops|
  {
    if ops == [] then (s, 0)
    else
      var (end, n) := Watch(Step(s, ops[0]), ops[1..], p);
      (end, n + if ops[0].TickOp? && s.current == p then 1 else 0)
  }

  function TicksOf(s: Sched, ops: seq<Op>, p: int): nat
    requires Shaped(s)
  {
    Watch(s, ops, p).1
  }

  lemma {:induction false} WatchIsRun(s: Sched, ops: seq<Op>, p: int)
    requires Shaped(s)
    ensures Watch(s, ops, p).0 == Run(s, ops)
    decreases |ops|
  {
    if ops != [] { WatchIsRun(Step(s, ops[0]), ops[1..], p); }
  }

  /** a / 2^n */
  function Halved(a: nat, n: nat): nat {
    if n == 0 then a else Halved(a / 2, n - 1)
  }

  ghost predicate NotReplaced(ops: seq<Op>, p: int) {
    forall k | 0 <= k < |ops| :: ops[k].ForkOp? ==> ops[k].address != p
  }

  lemma NotReplacedTail(ops: seq<Op>, p: int)
    requires NotReplaced(ops, p) && ops != []
    ensures (ops[0].ForkOp? ==> ops[0].address != p) && NotReplaced(ops[1..], p)
  {
    forall k | 0 <= k < |ops[1..]| ensures ops[1..][k].ForkOp? ==> ops[1..][k].address != p {
      assert ops[1..][k] == ops[k + 1];
    }
  }

  ghost predicate AgedAtMost(s: Sched, p: int, x: nat) { p in s.pcb && s.pcb[p].agingInterval <= x }

  /** What an operation leaves of the excess of p over 2D. */
  function Excess(s: Sched, op: Op, p: int, a: nat): nat { if op.TickOp? && s.current == p then a / 2 else a }

  lemma StepAges(s: Sched, op: Op, p: int, a: nat, D: nat)
    requires Shaped(s) && AgedAtMost(s, p, a + 2 * D)
    requires (op.TickOp? ==> op.interval <= D) && (op.ForkOp? ==> op.address != p)
    ensures AgedAtMost(Step(s, op), p, Excess(s, op, p, a) + 2 * D)
  {
    if op.TickOp? { TickAges(s, op.interval, op.due); }
  }

  lemma HalvedAfter(a: nat, found: bool, n: nat)
    ensures Halved(if found then a / 2 else a, n) == Halved(a, (if found then 1 else 0) + n)
  {
  }

  lemma {:induction false} WatchAges(s: Sched, ops: seq<Op>, p: int, a: nat, D: nat)
    requires Shaped(s) && AgedAtMost(s, p, a + 2 * D)
    requires ShortIntervals(ops, D) && NotReplaced(ops, p)
    ensures var (r, n) := Watch(s, ops, p); AgedAtMost(r, p, Halved(a, n) + 2 * D)
    decreases |ops|
  {
    if ops != [] {
      var s1, a1 := Step(s, ops[0]), Excess(s, ops[0], p, a);
      ShortTail(ops, D);
      NotReplacedTail(ops, p);
      StepAges(s, ops[0], p, a, D);
      WatchAges(s1, ops[1..], p, a1, D);
      HalvedAfter(a, ops[0].TickOp? && s.current == p, Watch(s1, ops[1..], p).1);
    }
  }

  /**
    The excess of a process's aging interval over 2D is halved by every tick that finds it running, over
    every run in which no measured interval is above D.
   */
  lemma AgingBound(s: Sched, ops: seq<Op>, p: int, a: nat, D: nat)
    requires Shaped(s) && AgedAtMost(s, p, a + 2 * D)
    requires ShortIntervals(ops, D) && NotReplaced(ops, p)
    ensures AgedAtMost(Run(s, ops), p, Halved(a, TicksOf(s, ops, p)) + 2 * D)
  {
    WatchAges(s, ops, p, a, D);
    WatchIsRun(s, ops, p);
  }

  /** The level never falls as the aging interval grows. */
  lemma LevelMonotone(a: nat, b: nat)
    requires a <= b
    ensures Level(a) <= Level(b) <= 5
  {
  }
}
