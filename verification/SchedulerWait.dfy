/** How long a ready process waits: strict priority between levels, and a bound on the wait at level 0. */
module SchedulerWait {
  import opened Options
  import opened SchedulerSpec
  import SchedulerPopulation

  // ---------- Priority ----------

  /** A process of level i is dispatched only when every lower level is empty, idle only when all six are. */
  lemma DispatchIsStrict(s: Sched)
    requires Shaped(s) && s.idle !in Flat(Requeue(s).queues)
    ensures var q, r := Requeue(s).queues, NextProcess(s);
      && (r.current == s.idle <==> forall i | 0 <= i < BLOCKED_LIST :: q[i] == [])
      && (r.current != s.idle ==>
            exists i :: 0 <= i < BLOCKED_LIST && q[i] != [] && r.current == q[i][0]
              && (forall j | 0 <= j < i :: q[j] == [])
              && r.queues == q[i := q[i][1..]])
  {
    var q := Requeue(s).queues;
    match FirstReady(q, 0)
    case Some(i) => InFlat(q, i, 0);
    case None =>
  }

  ghost function Flat(queues: seq<seq<int>>): set<int> {
    set i, k | 0 <= i < |queues| && 0 <= k < |queues[i]| :: queues[i][k]
  }

  lemma InFlat(queues: seq<seq<int>>, i: nat, k: nat)
    requires i < |queues| && k < |queues[i]|
    ensures queues[i][k] in Flat(queues)
  {
  }

  // ---------- Bounded wait ----------

  /** The process x is at position k of the level 0 queue. */
  ghost predicate WaitsAt(s: Sched, x: int, k: nat) {
    |s.queues| == LISTS && k < |s.queues[0]| && s.queues[0][k] == x
  }

  ghost predicate WaitsBy(s: Sched, x: int, k: nat) {
    exists k': nat :: k' <= k && WaitsAt(s, x, k')
  }

  /** One call of nextProcess runs the head of level 0 and moves everyone behind it up. */
  lemma NextAdvances(s: Sched, x: int, k: nat)
    requires Shaped(s) && WaitsAt(s, x, k)
    ensures k == 0 ==> NextProcess(s).current == x
    ensures k > 0 ==> WaitsAt(NextProcess(s), x, k - 1)
  {
    var s' := Requeue(s);
    assert s.queues[0] <= s'.queues[0];
    assert FirstReady(s'.queues, 0) == Some(0);
  }

  lemma {:induction false} UnblockAppends(s: Sched, rest: seq<int>)
    requires Shaped(s) && forall k | 0 <= k < |rest| :: rest[k] in s.pcb
    ensures s.queues[0] <= Unblock(s, rest).queues[0]
    decreases |rest|
  {
    if rest != [] {
      UnblockAppends(if s.pcb[rest[0]].state != BLOCKED then InsertInQueue(s, rest[0])
                     else Append(s, BLOCKED_LIST, rest[0]), rest[1..]);
    }
  }

  /** checkBlocked only appends to the level 0 queue. */
  lemma CheckBlockedAppends(s: Sched, x: int, k: nat)
    requires Shaped(s) && WaitsAt(s, x, k)
    ensures WaitsAt(CheckBlocked(s), x, k)
  {
    UnblockAppends(s.(queues := s.queues[BLOCKED_LIST := []]), s.queues[BLOCKED_LIST]);
  }

  lemma {:induction false} SweepOtherList(s: Sched, i: nat, k: nat)
    requires Shaped(s) && 0 < i < LISTS && k <= |s.queues[i]|
    ensures SweepList(s, i, k).queues[0] == s.queues[0]
    decreases |s.queues[i]| - k
  {
    var list := s.queues[i];
    if k == |list| {
    } else if s.pcb[list[k]].state == EXITED {
      SweepOtherList(DeleteProcess(s.(queues := s.queues[i := list[..k] + list[k + 1..]]), list[k]), i, k);
    } else {
      SweepOtherList(s, i, k + 1);
    }
  }

  lemma {:induction false} SweepOthers(s: Sched, i: nat)
    requires Shaped(s) && 0 < i <= LISTS
    ensures Sweep(s, i).queues[0] == s.queues[0]
    decreases LISTS - i
  {
    if i < LISTS {
      SweepOtherList(s, i, 0);
      SweepOthers(SweepList(s, i, 0), i + 1);
    }
  }

  /** checkExited on level 0, from position j: who has not exited is at the same place or further up. */
  lemma {:induction false} SweepAdvances(s: Sched, j: nat, x: int, k: nat)
    requires Shaped(s) && WaitsAt(s, x, k) && j <= |s.queues[0]| && s.pcb[x].state != EXITED
    ensures WaitsBy(SweepList(s, 0, j), x, k)
    decreases |s.queues[0]| - j
  {
    var list := s.queues[0];
    if j == |list| {
      assert WaitsAt(SweepList(s, 0, j), x, k);
    } else if s.pcb[list[j]].state == EXITED {
      var s' := DeleteProcess(s.(queues := s.queues[0 := list[..j] + list[j + 1..]]), list[j]);
      SchedulerPopulation.DeleteProcessOnlyReadies(SchedulerPopulation.Unlinked(s, 0, j), list[j]);
      var k' := if k < j then k else k - 1;
      assert k != j && WaitsAt(s', x, k');
      SweepAdvances(s', j, x, k');
      var k2: nat :| k2 <= k' && WaitsAt(SweepList(s', 0, j), x, k2);
      assert k2 <= k && WaitsAt(SweepList(s, 0, j), x, k2);
    } else {
      SweepAdvances(s, j + 1, x, k);
    }
  }

  /** The small steps scheduler and the system calls are made of. */
  datatype Move =
    | NextMove
    | UnblockMove
    | SweepMove
    | ForkMove(address: int, block: PCB)
    | BlockMove(blocks: map<int, PCB>)

  /** Forks insert a process with any control block; BlockMove changes the control blocks of any processes. */
  function Apply(s: Sched, m: Move): (r: Sched)
    requires Shaped(s)
    ensures Shaped(r)
  {
    match m
    case NextMove => NextProcess(s)
    case UnblockMove => CheckBlocked(s)
    case SweepMove => Sweep(s, 0)
    case ForkMove(p, block) => InsertInQueue(s.(pcb := s.pcb[p := block]), p)
    case BlockMove(blocks) => s.(pcb := s.pcb + blocks)
  }

  function RunMoves(s: Sched, moves: seq<Move>): (r: Sched)
    requires Shaped(s)
    ensures Shaped(r)
    decreases |moves|
  {
    if moves == [] then s else RunMoves(Apply(s, moves[0]), moves[1..])
  }

  lemma {:induction false} RunMovesConcat(s: Sched, a: seq<Move>, b: seq<Move>)
    requires Shaped(s)
    ensures RunMoves(s, a + b) == RunMoves(RunMoves(s, a), b)
    decreases |a|
  {
    if a == [] {
      assert a + b == b;
    } else {
      assert (a + b)[1..] == a[1..] + b;
      RunMovesConcat(Apply(s, a[0]), a[1..], b);
    }
  }

  /** Changing control blocks and nothing else is one move. */
  lemma BlocksAreAMove(s: Sched, r: Sched)
    requires Shaped(s) && r == s.(pcb := r.pcb) && r.pcb.Keys == s.pcb.Keys
    ensures RunMoves(s, [BlockMove(r.pcb)]) == r
  {
    assert s.pcb + r.pcb == r.pcb;
    assert RunMoves(Apply(s, BlockMove(r.pcb)), []) == r;
  }

  lemma OneMoreMove(s: Sched, moves: seq<Move>, m: Move)
    requires Shaped(s)
    ensures RunMoves(s, moves + [m]) == Apply(RunMoves(s, moves), m)
  {
    var r := RunMoves(s, moves);
    RunMovesConcat(s, moves, [m]);
    assert RunMoves(Apply(r, m), []) == Apply(r, m);
  }

  lemma CheckExitedIsMoves(s: Sched) returns (moves: seq<Move>)
    requires Shaped(s)
    ensures RunMoves(s, moves) == CheckExited(s)
  {
    var s' := Sweep(s, 0);
    OneMoreMove(s, [], SweepMove);
    moves := [] + [SweepMove];
    if s'.pcb[s'.current].state == EXITED {
      var s1 := DeleteProcess(s', s'.current);
      RunMovesConcat(s, moves, [BlockMove(s1.pcb)]);
      BlocksAreAMove(s', s1);
      moves := moves + [BlockMove(s1.pcb)];
      OneMoreMove(s, moves, UnblockMove);
      OneMoreMove(s, moves + [UnblockMove], NextMove);
      moves := moves + [UnblockMove] + [NextMove];
    }
  }

  /** Every call of scheduler is such a sequence of moves. */
  lemma TickIsMoves(s: Sched, interval: nat, due: seq<int>) returns (moves: seq<Move>)
    requires Shaped(s)
    ensures RunMoves(s, moves) == Tick(s, interval, due)
  {
    var s1 := Wake(Age(s, interval), due);
    BlocksAreAMove(s, s1);
    moves := [BlockMove(s1.pcb)];
    OneMoreMove(s, moves, UnblockMove);
    moves := moves + [UnblockMove];
    var s2 := CheckBlocked(s1);
    var exits := CheckExitedIsMoves(s2);
    RunMovesConcat(s, moves, exits);
    moves := moves + exits;
    var last := LastMoves(CheckExited(s2));
    RunMovesConcat(s, moves, last);
    moves := moves + last;
  }

  lemma LastMoves(s: Sched) returns (moves: seq<Move>)
    requires Shaped(s)
    ensures var s' := SpendQuantum(s); RunMoves(s, moves) == if MustSwitch(s') then NextProcess(s') else s'
  {
    var s' := SpendQuantum(s);
    BlocksAreAMove(s, s');
    moves := [BlockMove(s'.pcb)];
    if MustSwitch(s') {
      OneMoreMove(s, moves, NextMove);
      moves := moves + [NextMove];
    }
  }

  /** At no sweep of the run is x EXITED. */
  ghost predicate Survives(s: Sched, moves: seq<Move>, x: int)
    requires Shaped(s)
    decreases |moves|
  {
    moves != [] ==>
      && (moves[0].SweepMove? && x in s.pcb ==> s.pcb[x].state != EXITED)
      && Survives(Apply(s, moves[0]), moves[1..], x)
  }

  function Switches(moves: seq<Move>): nat {
    if moves == [] then 0 else (if moves[0].NextMove? then 1 else 0) + Switches(moves[1..])
  }

  lemma MoveKeepsUp(s: Sched, m: Move, x: int, k: nat)
    requires Shaped(s) && WaitsAt(s, x, k) && !m.NextMove?
    requires m.SweepMove? ==> s.pcb[x].state != EXITED
    ensures WaitsBy(Apply(s, m), x, k)
  {
    match m
    case UnblockMove => CheckBlockedAppends(s, x, k);
    case SweepMove =>
      SweepAdvances(s, 0, x, k);
      SweepOthers(SweepList(s, 0, 0), 1);
      var k': nat :| k' <= k && WaitsAt(SweepList(s, 0, 0), x, k');
      assert WaitsAt(Sweep(s, 0), x, k');
    case ForkMove(p, block) => assert WaitsAt(Apply(s, m), x, k);
    case BlockMove(blocks) => assert WaitsAt(Apply(s, m), x, k);
  }

  /**
    A process at position k of level 0 that is not itself removed becomes current within k + 1 calls
    of nextProcess, whatever is forked, unblocked, requeued, removed or changed meanwhile.
   */
  lemma {:induction false} BoundedWait(s: Sched, moves: seq<Move>, x: int, k: nat) returns (n: nat)
    requires Shaped(s) && WaitsAt(s, x, k) && Survives(s, moves, x) && Switches(moves) > k
    ensures 0 < n <= |moves| && moves[n - 1] == NextMove && Switches(moves[..n]) <= k + 1
    ensures RunMoves(s, moves[..n]).current == x
    decreases |moves|
  {
    var s' := Apply(s, moves[0]);
    if moves[0].NextMove? {
      NextAdvances(s, x, k);
      if k == 0 {
        n := 1;
        assert moves[..1] == [NextMove] && moves[..1][1..] == [];
        return;
      }
      n := BoundedWait(s', moves[1..], x, k - 1);
    } else {
      MoveKeepsUp(s, moves[0], x, k);
      var k': nat :| k' <= k && WaitsAt(s', x, k');
      n := BoundedWait(s', moves[1..], x, k');
    }
    assert moves[..n + 1][1..] == moves[1..][..n];
    n := n + 1;
  }
}
