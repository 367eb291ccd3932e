/**
  The semaphore primitive of Kernel/asm/semaphore.asm: any number of processes run _semLock and
  _semUnlock on one value word and one mutex word, and each step is one instruction of one process.
  The registers are those the file documents, rdi for the value and rdx for the mutex.
 */
module Semaphore {

  const WORD: nat := 0x1_0000_0000_0000_0000

  /** The instruction a process executes next; Outside when it is in neither routine. */
  datatype Pc =
    | Outside
    | LockMov | LockXchg | LockCmpRax | LockJne | LockCmpValue | LockJe | LockSub | LockRelease | LockRet
    | LockInt | LockGiveBack | LockGiveBackRet
    | UnlockMov | UnlockXchg | UnlockCmpRax | UnlockJne | UnlockAdd | UnlockRelease | UnlockRet | UnlockInt

  /** One process: rax, the zero flag, and how many locks that decremented and unlocks it has returned from. */
  datatype Proc = Proc(pc: Pc, rax: nat, zf: bool, locks: nat, unlocks: nat)

  /** The two shared words, the processes, and how often ADD has carried out of the value word so far. */
  datatype Machine = Machine(value: nat, mutex: nat, procs: seq<Proc>, carries: nat)

  datatype Event = CallLock(who: nat) | CallUnlock(who: nat) | Execute(who: nat)

  /** SUB and ADD of 1 on a 64-bit word. */
  function Minus1(value: nat): nat { if value == 0 then WORD - 1 else value - 1 }

  function Plus1(value: nat): nat { if value == WORD - 1 then 0 else value + 1 }

  /** What the carries out of the value word were worth. */
  function Worth(carries: nat): nat { 0x1_0000_0000_0000_0000 * carries }

  // ---------- One instruction ----------

  /** What one instruction leaves of the process, the two words, and the carry out of the value. */
  datatype Effect = Effect(p: Proc, value: nat, mutex: nat, carry: nat)

  function Exec(p: Proc, value: nat, mutex: nat): Effect {
    match p.pc
    case Outside => Effect(p, value, mutex, 0)
    case LockMov => Effect(p.(rax := 1, pc := LockXchg), value, mutex, 0)
    case LockXchg => Effect(p.(rax := mutex, pc := LockCmpRax), value, p.rax, 0)
    case LockCmpRax => Effect(p.(zf := p.rax == 0, pc := LockJne), value, mutex, 0)
    case LockJne => Effect(p.(pc := if p.zf then LockCmpValue else LockInt), value, mutex, 0)
    case LockCmpValue => Effect(p.(zf := value == 0, pc := LockJe), value, mutex, 0)
    case LockJe => Effect(p.(pc := if p.zf then LockGiveBack else LockSub), value, mutex, 0)
    case LockSub => Effect(p.(pc := LockRelease), Minus1(value), mutex, 0)
    case LockRelease => Effect(p.(pc := LockRet), value, 0, 0)
    case LockRet => Effect(p.(pc := Outside, locks := p.locks + 1), value, mutex, 0)
    case LockInt => Effect(p.(pc := LockMov), value, mutex, 0)
    case LockGiveBack => Effect(p.(pc := LockGiveBackRet), value, 0, 0)
    case LockGiveBackRet => Effect(p.(pc := Outside), value, mutex, 0)
    case UnlockMov => Effect(p.(rax := 1, pc := UnlockXchg), value, mutex, 0)
    case UnlockXchg => Effect(p.(rax := mutex, pc := UnlockCmpRax), value, p.rax, 0)
    case UnlockCmpRax => Effect(p.(zf := p.rax == 0, pc := UnlockJne), value, mutex, 0)
    case UnlockJne => Effect(p.(pc := if p.zf then UnlockAdd else UnlockInt), value, mutex, 0)
    case UnlockAdd => Effect(p.(pc := UnlockRelease), Plus1(value), mutex, if value == WORD - 1 then 1 else 0)
    case UnlockRelease => Effect(p.(pc := UnlockRet), value, 0, 0)
    case UnlockRet => Effect(p.(pc := Outside, unlocks := p.unlocks + 1), value, mutex, 0)
    case UnlockInt => Effect(p.(pc := UnlockMov), value, mutex, 0)
  }

  function Step(m: Machine, i: nat): (r: Machine)
    requires i < |m.procs|
    ensures |r.procs| == |m.procs|
  {
    var e := Exec(m.procs[i], m.value, m.mutex);
    Machine(e.value, e.mutex, m.procs[i := e.p], m.carries + e.carry)
  }

  function Happen(m: Machine, e: Event): (r: Machine)
    requires e.who < |m.procs|
    ensures |r.procs| == |m.procs|
  {
    match e
    case Execute(i) => Step(m, i)
    case CallLock(i) =>
      if m.procs[i].pc == Outside then m.(procs := m.procs[i := m.procs[i].(pc := LockMov)]) else m
    case CallUnlock(i) =>
      if m.procs[i].pc == Outside then m.(procs := m.procs[i := m.procs[i].(pc := UnlockMov)]) else m
  }

  // ---------- The processor ----------

  /** The two words in memory and the register sets, changed in place one instruction at a time. */
  class Memory {
    var value: nat
    var mutex: nat
    const procs: array<Proc>
    var carries: nat

    ghost function Abs(): Machine
      reads this, procs
    {
      Machine(value, mutex, procs[..], carries)
    }

    constructor (initial: nat, n: nat)
      ensures fresh(procs) && Abs() == Start(initial, n)
    {
      value, mutex, carries := initial, 0, 0;
      procs := new Proc[n](_ => Proc(Outside, 0, false, 0, 0));
      new;
      assert procs[..] == Start(initial, n).procs;
    }

    /** The next instruction of process i. */
    method Execute(i: nat)
      requires i < procs.Length
      modifies this, procs
      ensures Abs() == Step(old(Abs()), i)
    {
      var e := Exec(procs[i], value, mutex);
      procs[i], value, mutex, carries := e.p, e.value, e.mutex, carries + e.carry;
    }
  }

  // ---------- Sums over the processes ----------

  function Sum(f: Proc -> int, s: seq<Proc>): int {
    if s == [] then 0 else Sum(f, s[..|s| - 1]) + f(s[|s| - 1])
  }

  lemma {:induction false} SumUpdate(f: Proc -> int, s: seq<Proc>, i: nat, p: Proc)
    requires i < |s|
    ensures Sum(f, s[i := p]) == Sum(f, s) - f(s[i]) + f(p)
  {
    var k := |s| - 1;
    if i == k {
      assert s[i := p][..k] == s[..k];
    } else {
      SumUpdate(f, s[..k], i, p);
      assert s[i := p][..k] == s[..k][i := p];
    }
  }

  lemma {:induction false} SumBoundsTerms(f: Proc -> int, s: seq<Proc>, i: nat)
    requires i < |s| && forall q :: f(q) >= 0
    ensures Sum(f, s) >= f(s[i])
  {
    var k := |s| - 1;
    SumNotNegative(f, s[..k]);
    if i < k { SumBoundsTerms(f, s[..k], i); }
  }

  lemma {:induction false} SumNotNegative(f: Proc -> int, s: seq<Proc>)
    requires forall q :: f(q) >= 0
    ensures Sum(f, s) >= 0
  {
    if s != [] { SumNotNegative(f, s[..|s| - 1]); }
  }

  lemma {:induction false} SumBoundsPairs(f: Proc -> int, s: seq<Proc>, i: nat, j: nat)
    requires i < j < |s| && forall q :: f(q) >= 0
    ensures Sum(f, s) >= f(s[i]) + f(s[j])
  {
    var k := |s| - 1;
    if j < k {
      SumBoundsPairs(f, s[..k], i, j);
    } else {
      SumBoundsTerms(f, s[..k], i);
    }
  }

  lemma {:induction false} SumOfIdle(f: Proc -> int, s: seq<Proc>)
    requires forall k | 0 <= k < |s| :: f(s[k]) == 0
    ensures Sum(f, s) == 0
  {
    if s != [] { SumOfIdle(f, s[..|s| - 1]); }
  }

  /** Some term is not zero when the sum is not. */
  lemma {:induction false} SumHasATerm(f: Proc -> int, s: seq<Proc>) returns (i: nat)
    requires Sum(f, s) != 0
    ensures i < |s| && f(s[i]) != 0
  {
    var k := |s| - 1;
    if f(s[k]) != 0 {
      i := k;
    } else {
      i := SumHasATerm(f, s[..k]);
    }
  }

  // ---------- The invariant ----------

  /** Between an XCHG that found 0 and the store that releases the mutex. */
  predicate InSection(p: Proc) {
    match p.pc
    case LockCmpRax => p.rax == 0
    case UnlockCmpRax => p.rax == 0
    case LockJne => p.zf
    case UnlockJne => p.zf
    case LockCmpValue => true
    case LockJe => true
    case LockSub => true
    case LockRelease => true
    case LockGiveBack => true
    case UnlockAdd => true
    case UnlockRelease => true
    case _ => false
  }

  function Holds(p: Proc): int { if InSection(p) then 1 else 0 }

  /** What the process has added to the value, operations it has still to return from included. */
  function Added(p: Proc): int { p.unlocks + if p.pc == UnlockRelease || p.pc == UnlockRet then 1 else 0 }

  function Taken(p: Proc): int { p.locks + if p.pc == LockRelease || p.pc == LockRet then 1 else 0 }

  function Net(p: Proc): int { Added(p) - Taken(p) }

  /** What the registers of a process say about the two words. */
  ghost predicate Registers(p: Proc, value: nat) {
    && (p.pc.LockXchg? || p.pc.UnlockXchg? ==> p.rax == 1)
    && (p.pc.LockJe? ==> (p.zf <==> value == 0))
    && (p.pc.LockSub? ==> value > 0)
  }

  ghost predicate AllRegisters(m: Machine) {
    forall k | 0 <= k < |m.procs| :: Registers(m.procs[k], m.value)
  }

  /**
    The mutex word counts the processes in the section, and the value word, with the carries that left
    it, is the initial value plus every increment minus every decrement.
   */
  ghost predicate Inv(m: Machine, initial: nat) {
    && m.value < WORD
    && m.mutex == Sum(Holds, m.procs) <= 1
    && m.value + Worth(m.carries) == initial + Sum(Net, m.procs)
    && AllRegisters(m)
  }

  function Start(initial: nat, n: nat): Machine {
    Machine(initial, 0, seq(n, _ => Proc(Outside, 0, false, 0, 0)), 0)
  }

  lemma {:induction false} IdleSums(s: seq<Proc>)
    requires forall k | 0 <= k < |s| :: s[k] == Proc(Outside, 0, false, 0, 0)
    ensures Sum(Holds, s) == 0 && Sum(Net, s) == 0
  {
    if s != [] {
      IdleSums(s[..|s| - 1]);
    }
  }

  lemma StartInv(initial: nat, n: nat)
    requires initial < WORD
    ensures Inv(Start(initial, n), initial)
  {
    var m := Start(initial, n);
    IdleSums(m.procs);
    assert Worth(0) == 0;
    forall k | 0 <= k < n ensures Registers(m.procs[k], initial) {
      assert m.procs[k] == Proc(Outside, 0, false, 0, 0);
    }
  }

  /** Two processes are never in the section together, nor is one there while the mutex is free. */
  lemma SectionIsExclusive(m: Machine, initial: nat, i: nat, j: nat)
    requires Inv(m, initial) && i < |m.procs| && j < |m.procs| && InSection(m.procs[i])
    ensures m.mutex == 1
    ensures i != j ==> !InSection(m.procs[j])
  {
    SumBoundsTerms(Holds, m.procs, i);
    if i < j {
      SumBoundsPairs(Holds, m.procs, i, j);
    } else if j < i {
      SumBoundsPairs(Holds, m.procs, j, i);
    }
  }

  /** Replacing process i keeps the sums in step with what it now holds and has contributed. */
  lemma SumsAfter(m: Machine, r: Machine, i: nat, p: Proc)
    requires i < |m.procs| && r.procs == m.procs[i := p]
    ensures Sum(Holds, r.procs) == Sum(Holds, m.procs) - Holds(m.procs[i]) + Holds(p)
    ensures Sum(Net, r.procs) == Sum(Net, m.procs) - Net(m.procs[i]) + Net(p)
  {
    SumUpdate(Holds, m.procs, i, p);
    SumUpdate(Net, m.procs, i, p);
  }

  /** A process outside the section says nothing of the value, so that the one inside may change it. */
  lemma OthersDoNotLook(m: Machine, initial: nat, i: nat, r: Machine)
    requires Inv(m, initial) && i < |m.procs| && InSection(m.procs[i])
    requires |r.procs| == |m.procs| && forall k | 0 <= k < |m.procs| && k != i :: r.procs[k] == m.procs[k]
    requires Registers(r.procs[i], r.value)
    ensures AllRegisters(r)
  {
    forall k | 0 <= k < |r.procs| ensures Registers(r.procs[k], r.value) {
      if k != i {
        SectionIsExclusive(m, initial, i, k);
        assert Registers(m.procs[k], m.value);
      }
    }
  }

  /** One instruction keeps its process's account of the mutex, and leaves registers that tell the truth. */
  lemma ExecMutex(p: Proc, value: nat, mutex: nat)
    requires value < WORD && mutex <= 1 && Registers(p, value)
    requires InSection(p) ==> mutex == 1
    ensures var e := Exec(p, value, mutex);
      && e.mutex <= 1 && e.mutex - mutex == Holds(e.p) - Holds(p)
      && Registers(e.p, e.value)
  {
  }

  /** It keeps the account of the value too, which outside the section does not change. */
  lemma ExecValue(p: Proc, value: nat, mutex: nat)
    requires value < WORD && Registers(p, value)
    ensures var e := Exec(p, value, mutex);
      && e.value < WORD
      && e.value + Worth(e.carry) - value == Net(e.p) - Net(p)
      && (!InSection(p) ==> e.value == value)
  {
  }

  lemma WorthAdds(a: nat, b: nat)
    ensures Worth(a + b) == Worth(a) + Worth(b)
  {
  }

  lemma StepKeepsInv(m: Machine, initial: nat, i: nat)
    requires Inv(m, initial) && i < |m.procs|
    ensures Inv(Step(m, i), initial)
  {
    var p, r := m.procs[i], Step(m, i);
    var e := Exec(p, m.value, m.mutex);
    if InSection(p) { SectionIsExclusive(m, initial, i, i); }
    ExecMutex(p, m.value, m.mutex);
    ExecValue(p, m.value, m.mutex);
    SumsAfter(m, r, i, e.p);
    WorthAdds(m.carries, e.carry);
    OthersStillRight(m, initial, i, r);
  }

  lemma OthersStillRight(m: Machine, initial: nat, i: nat, r: Machine)
    requires Inv(m, initial) && i < |m.procs|
    requires |r.procs| == |m.procs| && forall k | 0 <= k < |m.procs| && k != i :: r.procs[k] == m.procs[k]
    requires Registers(r.procs[i], r.value) && (!InSection(m.procs[i]) ==> r.value == m.value)
    ensures AllRegisters(r)
  {
    if InSection(m.procs[i]) {
      OthersDoNotLook(m, initial, i, r);
    } else {
      forall k | 0 <= k < |r.procs| ensures Registers(r.procs[k], r.value) {
        assert Registers(m.procs[k], m.value);
      }
    }
  }

  lemma HappenKeepsInv(m: Machine, initial: nat, e: Event)
    requires Inv(m, initial) && e.who < |m.procs|
    ensures Inv(Happen(m, e), initial)
  {
    var i := e.who;
    if e.Execute? {
      StepKeepsInv(m, initial, i);
    } else {
      var r := Happen(m, e);
      SumsAfter(m, r, i, r.procs[i]);
      forall k | 0 <= k < |r.procs| ensures Registers(r.procs[k], r.value) {
        assert Registers(m.procs[k], m.value);
      }
    }
  }

  // ---------- Runs ----------

  ghost predicate Within(events: seq<Event>, n: nat) {
    forall k | 0 <= k < |events| :: events[k].who < n
  }

  function Run(m: Machine, events: seq<Event>): (r: Machine)
    requires Within(events, |m.procs|)
    ensures |r.procs| == |m.procs|
    decreases |events|
  {
    if events == [] then m else Run(Happen(m, events[0]), events[1..])
  }

  lemma {:induction false} RunKeepsInv(m: Machine, initial: nat, events: seq<Event>)
    requires Within(events, |m.procs|) && Inv(m, initial)
    ensures Inv(Run(m, events), initial)
    decreases |events|
  {
    if events != [] {
      HappenKeepsInv(m, initial, events[0]);
      RunKeepsInv(Happen(m, events[0]), initial, events[1..]);
    }
  }

  ghost predicate Exclusive(m: Machine) {
    forall i, j | 0 <= i < j < |m.procs| :: !(InSection(m.procs[i]) && InSection(m.procs[j]))
  }

  /** The decrement is only ever reached with something to take. */
  ghost predicate NeverBelowZero(m: Machine) {
    forall i | 0 <= i < |m.procs| :: m.procs[i].pc == LockSub ==> m.value > 0
  }

  /** What the invariant says of a state, in terms of increments and decrements. */
  ghost predicate Safe(m: Machine, initial: nat) {
    var added, taken := Sum(Added, m.procs), Sum(Taken, m.procs);
    && Exclusive(m) && NeverBelowZero(m)
    && taken <= initial + added
    && m.value == (initial + added - taken) % WORD
    && (initial + added < WORD ==> m.value == initial + added - taken)
  }

  lemma InvIsSafe(m: Machine, initial: nat)
    requires Inv(m, initial)
    ensures Safe(m, initial)
  {
    forall i, j | 0 <= i < j < |m.procs| ensures !(InSection(m.procs[i]) && InSection(m.procs[j])) {
      SumBoundsPairs(Holds, m.procs, i, j);
    }
    forall i | 0 <= i < |m.procs| ensures m.procs[i].pc == LockSub ==> m.value > 0 {
      assert Registers(m.procs[i], m.value);
    }
    NetIsDifference(m.procs);
    SumNotNegative(Taken, m.procs);
    ModOf(m.value, m.carries);
  }

  /**
    Mutual exclusion and the count, for any number of processes and any interleaving of instructions:
    at most one process is between a winning XCHG and its release, no SUB finds a zero, decrements never
    exceed the initial value plus the increments, and the value is their difference while that stays
    below 2^64.
   */
  lemma {:induction false} EveryRunIsSafe(initial: nat, n: nat, events: seq<Event>)
    requires initial < WORD && Within(events, n)
    ensures Safe(Run(Start(initial, n), events), initial)
  {
    StartInv(initial, n);
    RunKeepsInv(Start(initial, n), initial, events);
    InvIsSafe(Run(Start(initial, n), events), initial);
  }

  lemma ModOf(value: nat, carries: nat)
    requires value < WORD
    ensures (value + Worth(carries)) % WORD == value
    ensures value + Worth(carries) < WORD ==> carries == 0
  {
    assert (value + 0x1_0000_0000_0000_0000 * carries) % 0x1_0000_0000_0000_0000 == value;
  }

  lemma {:induction false} NetIsDifference(s: seq<Proc>)
    ensures Sum(Net, s) == Sum(Added, s) - Sum(Taken, s)
  {
    if s != [] { NetIsDifference(s[..|s| - 1]); }
  }

  /** Once everybody is outside, the value counts exactly the operations that have returned. */
  lemma QuietValue(m: Machine, initial: nat)
    requires Inv(m, initial) && forall k | 0 <= k < |m.procs| :: m.procs[k].pc == Outside
    ensures m.mutex == 0
    ensures m.value == (initial + Sum((p: Proc) => p.unlocks, m.procs) - Sum((p: Proc) => p.locks, m.procs)) % WORD
  {
    SumOfIdle(Holds, m.procs);
    SumsOfReturned(m.procs);
    ModOf(m.value, m.carries);
  }

  lemma {:induction false} SumsOfReturned(s: seq<Proc>)
    requires forall k | 0 <= k < |s| :: s[k].pc == Outside
    ensures Sum(Net, s) == Sum((p: Proc) => p.unlocks, s) - Sum((p: Proc) => p.locks, s)
  {
    if s != [] { SumsOfReturned(s[..|s| - 1]); }
  }

  // ---------- Every call is accounted for ----------

  /** In _semLock, and not yet turned back by a zero. */
  predicate Locking(pc: Pc) {
    match pc
    case LockMov => true
    case LockXchg => true
    case LockCmpRax => true
    case LockJne => true
    case LockCmpValue => true
    case LockJe => true
    case LockSub => true
    case LockRelease => true
    case LockRet => true
    case LockInt => true
    case _ => false
  }

  predicate Unlocking(pc: Pc) {
    match pc
    case UnlockMov => true
    case UnlockXchg => true
    case UnlockCmpRax => true
    case UnlockJne => true
    case UnlockAdd => true
    case UnlockRelease => true
    case UnlockRet => true
    case UnlockInt => true
    case _ => false
  }

  /** Calls that took effect, and locks that stood before the value with the mutex in hand and saw it zero. */
  datatype Account = Account(lockCalls: nat, unlockCalls: nat, zeros: nat)

  function Booked(m: Machine, i: nat, e: Event, a: Account): Account
    requires i < |m.procs|
  {
    var pc := m.procs[i].pc;
    if e == CallLock(i) && pc == Outside then a.(lockCalls := a.lockCalls + 1)
    else if e == CallUnlock(i) && pc == Outside then a.(unlockCalls := a.unlockCalls + 1)
    else if e == Execute(i) && pc == LockJe && m.value == 0 && m.mutex == 1 then a.(zeros := a.zeros + 1)
    else a
  }

  /** The account of process i at the end of the events, from a on. */
  function AccountOf(m: Machine, i: nat, events: seq<Event>, a: Account): Account
    requires i < |m.procs| && Within(events, |m.procs|)
    decreases |events|
  {
    if events == [] then a else AccountOf(Happen(m, events[0]), i, events[1..], Booked(m, i, events[0], a))
  }

  /** Every lock called has taken one, has seen a zero, or is still in the routine; unlocks likewise. */
  ghost predicate Balanced(p: Proc, a: Account) {
    && a.lockCalls == p.locks + a.zeros + (if Locking(p.pc) then 1 else 0)
    && a.unlockCalls == p.unlocks + (if Unlocking(p.pc) then 1 else 0)
  }

  lemma HappenBalances(m: Machine, initial: nat, i: nat, e: Event, a: Account)
    requires Inv(m, initial) && i < |m.procs| && e.who < |m.procs| && Balanced(m.procs[i], a)
    ensures Balanced(Happen(m, e).procs[i], Booked(m, i, e, a))
  {
    assert Registers(m.procs[i], m.value);
    if InSection(m.procs[i]) { SectionIsExclusive(m, initial, i, i); }
  }

  /** Over every run, nobody leaves _semLock but by taking one or finding none, nor _semUnlock but by adding one. */
  lemma {:induction false} EveryCallIsAccountedFor(m: Machine, initial: nat, i: nat, events: seq<Event>, a: Account)
    requires Inv(m, initial) && i < |m.procs| && Within(events, |m.procs|) && Balanced(m.procs[i], a)
    ensures Balanced(Run(m, events).procs[i], AccountOf(m, i, events, a))
    decreases |events|
  {
    if events != [] {
      HappenBalances(m, initial, i, events[0], a);
      HappenKeepsInv(m, initial, events[0]);
      EveryCallIsAccountedFor(Happen(m, events[0]), initial, i, events[1..], Booked(m, i, events[0], a));
    }
  }

  /** The same from the start. */
  lemma EveryRunIsAccountedFor(initial: nat, n: nat, i: nat, events: seq<Event>)
    requires initial < WORD && i < n && Within(events, n)
    ensures Balanced(Run(Start(initial, n), events).procs[i],
                     AccountOf(Start(initial, n), i, events, Account(0, 0, 0)))
  {
    StartInv(initial, n);
    EveryCallIsAccountedFor(Start(initial, n), initial, i, events, Account(0, 0, 0));
  }

  // ---------- Progress ----------

  /** Instructions left until the mutex is released. */
  function ToRelease(p: Proc): nat {
    match p.pc
    case LockCmpRax => 6
    case LockJne => 5
    case LockCmpValue => 4
    case LockJe => 3
    case LockSub => 2
    case LockRelease => 1
    case LockGiveBack => 1
    case UnlockCmpRax => 4
    case UnlockJne => 3
    case UnlockAdd => 2
    case UnlockRelease => 1
    case _ => 0
  }

  /**
    A taken mutex is always on its way to be released: somebody is in the section, its own next
    instruction brings it strictly closer to the release, and nobody else's instruction moves it.
   */
  lemma TakenMutexIsReleased(m: Machine, initial: nat, e: Event) returns (holder: nat)
    requires Inv(m, initial) && m.mutex == 1 && e.who < |m.procs|
    ensures holder < |m.procs| && InSection(m.procs[holder]) && 0 < ToRelease(m.procs[holder]) <= 6
    ensures e == Execute(holder) ==>
      ToRelease(Happen(m, e).procs[holder]) < ToRelease(m.procs[holder])
      && (Happen(m, e).mutex == 0 || InSection(Happen(m, e).procs[holder]))
    ensures e != Execute(holder) ==> Happen(m, e).procs[holder] == m.procs[holder] && Happen(m, e).mutex == 1
  {
    holder := SumHasATerm(Holds, m.procs);
    assert Registers(m.procs[e.who], m.value);
    if e.who != holder {
      SectionIsExclusive(m, initial, holder, e.who);
    }
  }

  /** The processor gives process i its next k instructions. */
  function Steps(m: Machine, i: nat, k: nat): (r: Machine)
    requires i < |m.procs|
    ensures |r.procs| == |m.procs|
    decreases k
  {
    if k == 0 then m else Steps(Step(m, i), i, k - 1)
  }

  /** The same k instructions seen from the process and the two words only. */
  function Alone(p: Proc, value: nat, mutex: nat, k: nat): Effect
    decreases k
  {
    if k == 0 then Effect(p, value, mutex, 0)
    else var e := Exec(p, value, mutex); Alone(e.p, e.value, e.mutex, k - 1)
  }

  lemma {:induction false} StepsAreAlone(m: Machine, i: nat, k: nat)
    requires i < |m.procs|
    ensures var e, after := Alone(m.procs[i], m.value, m.mutex, k), Steps(m, i, k);
      after.procs[i] == e.p && after.value == e.value && after.mutex == e.mutex
    decreases k
  {
    if k > 0 { StepsAreAlone(Step(m, i), i, k - 1); }
  }

  /** On a free semaphore an unlock alone adds one and gives the mutex back. */
  lemma LoneUnlock(m: Machine, i: nat)
    requires i < |m.procs| && m.procs[i].pc == UnlockMov && m.mutex == 0 && m.value < WORD
    ensures var after := Steps(m, i, 7);
      && after.mutex == 0 && after.procs[i].pc == Outside
      && after.value == (m.value + 1) % WORD
      && after.procs[i].unlocks == m.procs[i].unlocks + 1 && after.procs[i].locks == m.procs[i].locks
  {
    var p := m.procs[i];
    StepsAreAlone(m, i, 7);
    assert Alone(p, m.value, 0, 7) == Alone(p.(rax := 0, pc := UnlockCmpRax), m.value, 1, 5);
    assert Alone(p.(rax := 0, pc := UnlockCmpRax), m.value, 1, 5)
        == Alone(p.(rax := 0, zf := true, pc := UnlockAdd), m.value, 1, 3);
  }

  /** While the mutex is taken, a caller comes back to its first instruction and has changed neither word. */
  lemma SpinsWhileTaken(m: Machine, i: nat)
    requires i < |m.procs| && (m.procs[i].pc == LockMov || m.procs[i].pc == UnlockMov) && m.mutex == 1
    ensures var after := Steps(m, i, 5);
      && after.value == m.value && after.mutex == 1 && after.procs[i].pc == m.procs[i].pc
      && after.procs[i].locks == m.procs[i].locks && after.procs[i].unlocks == m.procs[i].unlocks
  {
    var p := m.procs[i];
    StepsAreAlone(m, i, 5);
    if p.pc == LockMov {
      assert Alone(p, m.value, 1, 5) == Alone(p.(rax := 1, pc := LockCmpRax), m.value, 1, 3);
    } else {
      assert Alone(p, m.value, 1, 5) == Alone(p.(rax := 1, pc := UnlockCmpRax), m.value, 1, 3);
    }
  }

  /** The first five instructions of a lock that finds the mutex free. */
  lemma AloneToTheValue(p: Proc, value: nat, k: nat)
    requires p.pc == LockMov
    ensures Alone(p, value, 0, 5 + k) == Alone(p.(rax := 0, zf := value == 0, pc := LockJe), value, 1, k)
  {
    assert Alone(p, value, 0, 5 + k) == Alone(p.(rax := 0, pc := LockCmpRax), value, 1, 3 + k);
    assert Alone(p.(rax := 0, pc := LockCmpRax), value, 1, 3 + k)
        == Alone(p.(rax := 0, zf := true, pc := LockCmpValue), value, 1, 1 + k);
  }

  lemma AloneFromTheValue(p: Proc, value: nat)
    requires p.pc == LockJe && (p.zf <==> value == 0)
    ensures value == 0 ==> Alone(p, value, 1, 3) == Effect(p.(pc := Outside), 0, 0, 0)
    ensures value > 0 ==> Alone(p, value, 1, 4) == Effect(p.(pc := Outside, locks := p.locks + 1), value - 1, 0, 0)
  {
    if value == 0 {
      assert Alone(p, value, 1, 3) == Alone(p.(pc := LockGiveBackRet), 0, 0, 1);
    } else {
      assert Alone(p, value, 1, 4) == Alone(p.(pc := LockRelease), value - 1, 1, 2);
    }
  }

  /**
    A lock that runs alone on a free semaphore gives the mutex back, and takes one from the value if
    there is one; on a zero it returns all the same, having taken nothing and waited for nobody.
   */
  lemma LoneLock(m: Machine, i: nat)
    requires i < |m.procs| && m.procs[i].pc == LockMov && m.mutex == 0
    ensures var after := Steps(m, i, if m.value == 0 then 8 else 9);
      && after.mutex == 0 && after.procs[i].pc == Outside
      && after.value == (if m.value == 0 then 0 else m.value - 1)
      && after.procs[i].locks == m.procs[i].locks + (if m.value == 0 then 0 else 1)
  {
    var p, k := m.procs[i], if m.value == 0 then 3 else 4;
    StepsAreAlone(m, i, 5 + k);
    AloneToTheValue(p, m.value, k);
    AloneFromTheValue(p.(rax := 0, zf := m.value == 0, pc := LockJe), m.value);
  }
}
