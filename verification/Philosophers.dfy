/**
  The dining philosophers of Userland/programs/filosopher.c: n philosophers around a table, sharing
  state[] under one mutex.  A step is one critical section, of any philosopher at any time; nothing is
  assumed of the per-philosopher semaphores, which start at 1 and do not hold anybody back.
 */
module Philosophers {

  datatype PhilState = THINKING | HUNGRY | EATING

  function Left(i: nat, n: nat): (l: nat)
    requires i < n
    ensures l < n
  {
    (i + n - 1) % n
  }

  function Right(i: nat, n: nat): (r: nat)
    requires i < n
    ensures r < n
  {
    (i + 1) % n
  }

  /** A remainder of something below 2n. */
  lemma ModOnce(a: nat, n: nat)
    requires 0 < n && a < 2 * n
    ensures a % n == if a < n then a else a - n
  {
    if a < n {
      assert a == 0 * n + a;
    } else {
      assert a == 1 * n + (a - n);
    }
  }

  /** The seats on either side, spelled out. */
  lemma Seats(i: nat, n: nat)
    requires i < n
    ensures Left(i, n) == if i == 0 then n - 1 else i - 1
    ensures Right(i, n) == if i == n - 1 then 0 else i + 1
  {
    ModOnce(i + n - 1, n);
    ModOnce(i + 1, n);
  }

  /** The two macros are inverse to each other, and name somebody else as soon as there are two. */
  lemma NeighboursAreMutual(i: nat, n: nat)
    requires i < n
    ensures Left(Right(i, n), n) == i && Right(Left(i, n), n) == i
    ensures n >= 2 ==> Left(i, n) != i && Right(i, n) != i
  {
    Seats(i, n);
    Seats(Left(i, n), n);
    Seats(Right(i, n), n);
  }

  /** test: a hungry philosopher neither of whose neighbours eats starts eating. */
  function Test(s: seq<PhilState>, i: nat): (r: seq<PhilState>)
    requires i < |s|
    ensures |r| == |s|
  {
    if s[i] == HUNGRY && s[Left(i, |s|)] != EATING && s[Right(i, |s|)] != EATING then s[i := EATING] else s
  }

  /** The critical section of take_forks. */
  function TakeForks(s: seq<PhilState>, i: nat): (r: seq<PhilState>)
    requires i < |s|
    ensures |r| == |s|
  {
    Test(s[i := HUNGRY], i)
  }

  /** The critical section of put_forks. */
  function PutForks(s: seq<PhilState>, i: nat): (r: seq<PhilState>)
    requires i < |s|
    ensures |r| == |s|
  {
    Test(Test(s[i := THINKING], Left(i, |s|)), Right(i, |s|))
  }

  // ---------- What the critical sections are for ----------

  /** i eats now if neither neighbour did, and waits otherwise; nobody else changed. */
  ghost predicate EatsOrWaits(s: seq<PhilState>, r: seq<PhilState>, i: nat)
    requires i < |s|
  {
    && |r| == |s|
    && r[i] == (if s[Left(i, |s|)] == EATING || s[Right(i, |s|)] == EATING then HUNGRY else EATING)
    && forall j | 0 <= j < |s| && j != i :: r[j] == s[j]
  }

  lemma TakeForksFeeds(s: seq<PhilState>, i: nat)
    requires |s| >= 2 && i < |s|
    ensures EatsOrWaits(s, TakeForks(s, i), i)
  {
    NeighboursAreMutual(i, |s|);
  }

  /**
    i thinks.  Its left neighbour, if hungry, eats unless the next one to the left does, and then its right
    neighbour, if hungry, unless the next one to the right does; nobody else changed.
   */
  ghost predicate ThinksAndFeeds(s: seq<PhilState>, r: seq<PhilState>, i: nat)
    requires i < |s|
  {
    var n := |s|;
    var left, right := Left(i, n), Right(i, n);
    && |r| == n && r[i] == THINKING
    && r[left] == (if s[left] == HUNGRY && (Left(left, n) == i || s[Left(left, n)] != EATING) then EATING else s[left])
    && r[right] == (if s[right] == HUNGRY && r[Right(right, n)] != EATING then EATING else s[right])
    && forall j | 0 <= j < n && j != i && j != left && j != right :: r[j] == s[j]
  }

  lemma PutForksFeeds(s: seq<PhilState>, i: nat)
    requires |s| >= 2 && i < |s|
    ensures ThinksAndFeeds(s, PutForks(s, i), i)
  {
    var n := |s|;
    Seats(i, n);
    Seats(Left(i, n), n);
    Seats(Right(i, n), n);
  }

  // ---------- The shared array ----------

  method TestInPlace(state: array<PhilState>, index: nat)
    requires index < state.Length
    modifies state
    ensures state[..] == Test(old(state[..]), index)
  {
    var n := state.Length;
    if state[index] == HUNGRY && state[Left(index, n)] != EATING && state[Right(index, n)] != EATING {
      state[index] := EATING;
    }
  }

  method TakeForksInPlace(state: array<PhilState>, index: nat)
    requires index < state.Length
    modifies state
    ensures state[..] == TakeForks(old(state[..]), index)
    ensures state.Length >= 2 ==> EatsOrWaits(old(state[..]), state[..], index)
  {
    if state.Length >= 2 { TakeForksFeeds(state[..], index); }
    state[index] := HUNGRY;
    TestInPlace(state, index);
  }

  method PutForksInPlace(state: array<PhilState>, index: nat)
    requires index < state.Length
    modifies state
    ensures state[..] == PutForks(old(state[..]), index)
    ensures state.Length >= 2 ==> ThinksAndFeeds(old(state[..]), state[..], index)
  {
    if state.Length >= 2 { PutForksFeeds(state[..], index); }
    state[index] := THINKING;
    TestInPlace(state, Left(index, state.Length));
    TestInPlace(state, Right(index, state.Length));
  }

  // ---------- Safety ----------

  /** No two neighbours eat. */
  ghost predicate NeighboursApart(s: seq<PhilState>) {
    forall i | 0 <= i < |s| :: s[i] == EATING ==> s[Right(i, |s|)] != EATING
  }

  ghost predicate Blocked(s: seq<PhilState>, i: nat)
    requires i < |s|
  {
    s[Left(i, |s|)] == EATING || s[Right(i, |s|)] == EATING
  }

  /** Of the philosophers that have been through take_forks, those still hungry have an eating neighbour. */
  ghost predicate WaitersBlocked(s: seq<PhilState>, entered: set<nat>) {
    forall i | i in entered && i < |s| && s[i] == HUNGRY :: Blocked(s, i)
  }

  ghost predicate Inv(s: seq<PhilState>, entered: set<nat>) {
    |s| >= 2 && NeighboursApart(s) && WaitersBlocked(s, entered)
  }

  lemma TestKeepsApart(s: seq<PhilState>, i: nat)
    requires |s| >= 2 && NeighboursApart(s) && i < |s|
    ensures NeighboursApart(Test(s, i))
  {
    var n, r := |s|, Test(s, i);
    NeighboursAreMutual(i, n);
    forall j | 0 <= j < n && r[j] == EATING ensures r[Right(j, n)] != EATING {
      NeighboursAreMutual(j, n);
    }
  }

  /** Testing i blocks or feeds i, and leaves everyone else as blocked as before. */
  lemma TestBlocksWaiters(s: seq<PhilState>, i: nat, entered: set<nat>)
    requires |s| >= 2 && i < |s| && WaitersBlocked(s, entered - {i})
    ensures WaitersBlocked(Test(s, i), entered)
  {
    var n, r := |s|, Test(s, i);
    NeighboursAreMutual(i, n);
    forall j | j in entered && j < n && r[j] == HUNGRY ensures Blocked(r, j) {
      if j != i {
        assert j in entered - {i} && s[j] == HUNGRY;
        assert Blocked(s, j);
      }
    }
  }

  lemma TakeForksKeepsInv(s: seq<PhilState>, i: nat, entered: set<nat>)
    requires Inv(s, entered) && i < |s|
    ensures Inv(TakeForks(s, i), entered + {i})
  {
    var n, h := |s|, s[i := HUNGRY];
    NeighboursAreMutual(i, n);
    forall j | 0 <= j < n && h[j] == EATING ensures h[Right(j, n)] != EATING {
      NeighboursAreMutual(j, n);
    }
    TestKeepsApart(h, i);
    if s[i] == EATING {
      var l := Left(i, n);
      assert s[Right(l, n)] == EATING && s[Right(i, n)] != EATING;
      assert TakeForks(s, i) == s;
    } else {
      forall j | j in entered - {i} && j < n && h[j] == HUNGRY ensures Blocked(h, j) {
        assert Blocked(s, j);
      }
      assert (entered + {i}) - {i} == entered - {i};
      TestBlocksWaiters(h, i, entered + {i});
    }
  }

  lemma PutForksKeepsInv(s: seq<PhilState>, i: nat, entered: set<nat>)
    requires Inv(s, entered) && i < |s|
    ensures Inv(PutForks(s, i), entered)
  {
    var n := |s|;
    var l, r := Left(i, n), Right(i, n);
    NeighboursAreMutual(i, n);
    var t := s[i := THINKING];
    forall j | 0 <= j < n && t[j] == EATING ensures t[Right(j, n)] != EATING {
      NeighboursAreMutual(j, n);
    }
    forall j | j in entered - {l, r} && j < n && t[j] == HUNGRY ensures Blocked(t, j) {
      NeighboursAreMutual(j, n);
      assert Blocked(s, j);
    }
    TestKeepsApart(t, l);
    TestKeepsApart(Test(t, l), r);
    assert entered - {r} - {l} == entered - {l, r};
    TestBlocksWaiters(t, l, entered - {r});
    TestBlocksWaiters(Test(t, l), r, entered);
  }

  // ---------- Runs ----------

  datatype Section = Take(who: nat) | Put(who: nat)

  /** The table after critical sections in any order, and who has been through take_forks. */
  function Run(s: seq<PhilState>, entered: set<nat>, sections: seq<Section>): (r: (seq<PhilState>, set<nat>))
    requires forall k | 0 <= k < |sections| :: sections[k].who < |s|
    ensures |r.0| == |s|
    decreases |sections|
  {
    if sections == [] then (s, entered)
    else match sections[0]
      case Take(i) => Run(TakeForks(s, i), entered + {i}, sections[1..])
      case Put(i) => Run(PutForks(s, i), entered, sections[1..])
  }

  lemma {:induction false} RunKeepsInv(s: seq<PhilState>, entered: set<nat>, sections: seq<Section>)
    requires forall k | 0 <= k < |sections| :: sections[k].who < |s|
    requires Inv(s, entered)
    ensures Inv(Run(s, entered, sections).0, Run(s, entered, sections).1)
    decreases |sections|
  {
    if sections != [] {
      match sections[0] {
        case Take(i) =>
          TakeForksKeepsInv(s, i, entered);
          RunKeepsInv(TakeForks(s, i), entered + {i}, sections[1..]);
        case Put(i) =>
          PutForksKeepsInv(s, i, entered);
          RunKeepsInv(PutForks(s, i), entered, sections[1..]);
      }
    }
  }

  /** The last critical section of i, if any, was a put_forks. */
  predicate LastPut(sections: seq<Section>, i: nat) {
    if sections == [] then false
    else
      var last := sections[|sections| - 1];
      if last.who == i then last.Put? else LastPut(sections[..|sections| - 1], i)
  }

  lemma {:induction false} RunOneMore(s: seq<PhilState>, entered: set<nat>, sections: seq<Section>, last: Section)
    requires forall k | 0 <= k < |sections| :: sections[k].who < |s|
    requires last.who < |s|
    ensures forall k | 0 <= k < |sections + [last]| :: (sections + [last])[k].who < |s|
    ensures var t := Run(s, entered, sections).0;
      Run(s, entered, sections + [last]).0 == if last.Take? then TakeForks(t, last.who) else PutForks(t, last.who)
    decreases |sections|
  {
    if sections == [] {
      assert [last][1..] == [];
    } else {
      assert (sections + [last])[1..] == sections[1..] + [last];
      match sections[0] {
        case Take(i) => RunOneMore(TakeForks(s, i), entered + {i}, sections[1..], last);
        case Put(i) => RunOneMore(PutForks(s, i), entered, sections[1..], last);
      }
    }
  }

  /** Over every run, exactly those think whose last critical section was put_forks: all others are at the table. */
  lemma {:induction false} WhoThinks(s: seq<PhilState>, entered: set<nat>, sections: seq<Section>, i: nat)
    requires |s| >= 2 && i < |s| && (forall j | 0 <= j < |s| :: s[j] == HUNGRY)
    requires forall k | 0 <= k < |sections| :: sections[k].who < |s|
    ensures Run(s, entered, sections).0[i] == THINKING <==> LastPut(sections, i)
    decreases |sections|
  {
    if sections != [] {
      var before, last := sections[..|sections| - 1], sections[|sections| - 1];
      var t := Run(s, entered, before).0;
      WhoThinks(s, entered, before, i);
      RunOneMore(s, entered, before, last);
      assert sections == before + [last];
      NeighboursAreMutual(last.who, |s|);
      if last.Take? { TakeForksFeeds(t, last.who); } else { PutForksFeeds(t, last.who); }
    }
  }

  /** Somebody who has been through take_forks is still hungry. */
  ghost predicate SomebodyWaits(s: seq<PhilState>, entered: set<nat>) {
    exists i :: i in entered && i < |s| && s[i] == HUNGRY
  }

  lemma WaitingMeansEating(s: seq<PhilState>, entered: set<nat>)
    requires WaitersBlocked(s, entered) && SomebodyWaits(s, entered)
    ensures EATING in s
  {
    var i :| i in entered && i < |s| && s[i] == HUNGRY;
    assert Blocked(s, i);
  }

  /**
    For any number of philosophers from two up, all HUNGRY at the start as phylo leaves them, and any
    interleaving: no two neighbours eat, and whoever waits after its take_forks has an eating neighbour,
    so that somebody eats whenever somebody waits.
   */
  lemma {:induction false} EveryRunIsSafe(n: nat, sections: seq<Section>)
    requires n >= 2 && forall k | 0 <= k < |sections| :: sections[k].who < n
    ensures var (s, entered) := Run(seq(n, _ => HUNGRY), {}, sections);
      NeighboursApart(s) && WaitersBlocked(s, entered) && (SomebodyWaits(s, entered) ==> EATING in s)
  {
    var start := seq(n, _ => HUNGRY);
    assert Inv(start, {});
    RunKeepsInv(start, {}, sections);
    var (s, entered) := Run(start, {}, sections);
    if SomebodyWaits(s, entered) {
      WaitingMeansEating(s, entered);
    }
  }
}
