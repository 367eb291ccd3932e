/**
  The scheduler of Kernel/interruptRelated/scheduler.c as functions on a state: the running process,
  six ready queues, the blocked list, and the control block of every process.
  Processes are named by the address of their PCB node.
 */
module SchedulerSpec {
  import opened Options

  const QUANTUM_SIZE: nat := 55
  const BLOCKED_LIST: nat := 6
  const LISTS: nat := 7
  const INIT_ID: nat := 1
  const IDLE_ID: nat := 2

  datatype ProcessState = READY | RUNNING | BLOCKED | YIELDED | EXITED

  /** childsIds has slots, and 0 in the empty ones. */
  datatype PCB = PCB(id: nat, state: ProcessState, quantums: int, agingInterval: nat, priority: nat,
                     parentId: nat, childsIds: seq<nat>)

  /** requeuesReady is false for nextProcess as written, and true with a case that queues READY like RUNNING. */
  datatype Sched = Sched(current: int, idle: int, pcb: map<int, PCB>, queues: seq<seq<int>>, requeuesReady: bool)

  /** Six ready queues and the blocked list; every process mentioned has a control block. */
  ghost predicate Shaped(s: Sched) {
    && |s.queues| == LISTS && s.current in s.pcb && s.idle in s.pcb
    && forall i, k | 0 <= i < LISTS && 0 <= k < |s.queues[i]| :: s.queues[i][k] in s.pcb
  }

  // ---------- Queues ----------

  /** The ready queue for an aging interval. */
  function Level(aging: nat): nat {
    if aging <= QUANTUM_SIZE then 0
    else if aging <= QUANTUM_SIZE * 2 then 1
    else if aging <= QUANTUM_SIZE * 3 then 2
    else if aging <= QUANTUM_SIZE * 4 then 3
    else if aging <= QUANTUM_SIZE * 5 then 4
    else 5
  }

  function Append(s: Sched, i: nat, p: int): (r: Sched)
    requires i < |s.queues|
  {
    s.(queues := s.queues[i := s.queues[i] + [p]])
  }

  function SetState(s: Sched, p: int, state: ProcessState): Sched
    requires p in s.pcb
  {
    s.(pcb := s.pcb[p := s.pcb[p].(state := state)])
  }

  /** insertInQueue: the level of its aging, with that level's quantums. */
  function InsertInQueue(s: Sched, p: int): (r: Sched)
    requires |s.queues| == LISTS && p in s.pcb
    ensures Shaped(s) ==> Shaped(r)
  {
    var level := Level(s.pcb[p].agingInterval);
    Append(s, level, p).(pcb := s.pcb[p := s.pcb[p].(quantums := level + 1, priority := level)])
  }

  // ---------- nextProcess ----------

  predicate CurrentIsIdle(s: Sched)
    requires s.current in s.pcb && s.idle in s.pcb
  {
    s.pcb[s.current].id == s.pcb[s.idle].id
  }

  /** The switch of nextProcess: where the running process goes.  As written READY and EXITED go nowhere. */
  function Requeue(s: Sched): (r: Sched)
    requires Shaped(s)
    ensures Shaped(r)
  {
    if CurrentIsIdle(s) then SetState(s, s.current, READY)
    else match s.pcb[s.current].state
      case BLOCKED => Append(s, BLOCKED_LIST, s.current)
      case RUNNING => InsertInQueue(SetState(s, s.current, READY), s.current)
      case YIELDED => Append(SetState(s, s.current, READY), 5, s.current)
      case READY => if s.requeuesReady then InsertInQueue(s, s.current) else s
      case EXITED => s
  }

  /** The first ready queue from level i on that holds a process. */
  function FirstReady(queues: seq<seq<int>>, i: nat): (r: Option<nat>)
    requires |queues| == LISTS && i <= BLOCKED_LIST
    ensures r.Some? ==> i <= r.value < BLOCKED_LIST && queues[r.value] != []
    ensures forall j | i <= j < (if r.Some? then r.value else BLOCKED_LIST) :: queues[j] == []
    decreases BLOCKED_LIST - i
  {
    if i == BLOCKED_LIST then None
    else if queues[i] != [] then Some(i)
    else FirstReady(queues, i + 1)
  }

  /** Dispatch: the head of the first non-empty ready queue, or idle. */
  function Dispatch(s: Sched): (r: Sched)
    requires Shaped(s)
    ensures Shaped(r)
  {
    match FirstReady(s.queues, 0)
    case Some(i) =>
      var next := s.queues[i][0];
      SetState(s.(current := next, queues := s.queues[i := s.queues[i][1..]]), next, RUNNING)
    case None =>
      s.(current := s.idle,
         pcb := s.pcb[s.idle := s.pcb[s.idle].(agingInterval := 0, quantums := 1, state := RUNNING)])
  }

  function NextProcess(s: Sched): (r: Sched)
    requires Shaped(s)
    ensures Shaped(r)
  {
    Dispatch(Requeue(s))
  }

  // ---------- checkBlocked ----------

  /** The rest of the blocked list, one node at a time: BLOCKED ones stay, the others become ready. */
  function Unblock(s: Sched, rest: seq<int>): (r: Sched)
    requires Shaped(s) && forall k | 0 <= k < |rest| :: rest[k] in s.pcb
    ensures Shaped(r)
    decreases |rest|
  {
    if rest == [] then s
    else if s.pcb[rest[0]].state != BLOCKED then Unblock(InsertInQueue(s, rest[0]), rest[1..])
    else Unblock(Append(s, BLOCKED_LIST, rest[0]), rest[1..])
  }

  function CheckBlocked(s: Sched): (r: Sched)
    requires Shaped(s)
    ensures Shaped(r)
  {
    Unblock(s.(queues := s.queues[BLOCKED_LIST := []]), s.queues[BLOCKED_LIST])
  }

  // ---------- checkExited ----------

  function FindInList(pcb: map<int, PCB>, list: seq<int>, pid: nat, k: nat): (r: Option<int>)
    requires k <= |list| && forall j | 0 <= j < |list| :: list[j] in pcb
    ensures r.Some? ==> r.value in list && pcb[r.value].id == pid
    ensures r.None? ==> forall j | k <= j < |list| :: pcb[list[j]].id != pid
    decreases |list| - k
  {
    if k == |list| then None
    else if pcb[list[k]].id == pid then Some(list[k])
    else FindInList(pcb, list, pid, k + 1)
  }

  function FindInQueues(s: Sched, pid: nat, i: nat): (r: Option<int>)
    requires Shaped(s) && i <= LISTS
    ensures r.Some? ==> r.value in s.pcb && s.pcb[r.value].id == pid
    decreases LISTS - i
  {
    if i == LISTS then None
    else
      var r := FindInList(s.pcb, s.queues[i], pid, 0);
      if r.Some? then r else FindInQueues(s, pid, i + 1)
  }

  /** getEntry: the process of that pid, the running one first. */
  function GetEntry(s: Sched, pid: nat): (r: Option<int>)
    requires Shaped(s)
    ensures r.Some? ==> r.value in s.pcb && s.pcb[r.value].id == pid
  {
    if s.pcb[s.current].id == pid then Some(s.current) else FindInQueues(s, pid, 0)
  }

  function SetParent(s: Sched, p: int, parentId: nat): Sched
    requires p in s.pcb
  {
    s.(pcb := s.pcb[p := s.pcb[p].(parentId := parentId)])
  }

  /** checkChilds: every child listed in the slots gets the new parent. */
  function Adopt(s: Sched, slots: seq<nat>, parentId: nat): (r: Sched)
    requires Shaped(s)
    ensures Shaped(r) && r == s.(pcb := r.pcb) && r.pcb.Keys == s.pcb.Keys
    decreases |slots|
  {
    if slots == [] then s
    else match if slots[0] == 0 then None else GetEntry(s, slots[0])
      case Some(child) => Adopt(SetParent(s, child, parentId), slots[1..], parentId)
      case None => Adopt(s, slots[1..], parentId)
  }

  function CheckChilds(s: Sched, p: int): (r: Sched)
    requires Shaped(s) && p in s.pcb
    ensures Shaped(r) && r == s.(pcb := r.pcb) && r.pcb.Keys == s.pcb.Keys
  {
    match GetEntry(s, s.pcb[p].parentId)
    case Some(parent) => Adopt(s, s.pcb[p].childsIds, s.pcb[parent].id)
    case None => s
  }

  /** The slots with every occurrence of the id emptied. */
  function Cleared(slots: seq<nat>, id: nat): (r: seq<nat>)
    ensures |r| == |slots| && forall k | 0 <= k < |r| :: r[k] == if slots[k] == id then 0 else slots[k]
  {
    seq(|slots|, k requires 0 <= k < |slots| => if slots[k] == id then 0 else slots[k])
  }

  /** setParentReady: the parent forgets the child and becomes READY, whatever state it was in. */
  function SetParentReady(s: Sched, p: int): (r: Sched)
    requires Shaped(s) && p in s.pcb
    ensures Shaped(r) && r == s.(pcb := r.pcb) && r.pcb.Keys == s.pcb.Keys
  {
    match GetEntry(s, s.pcb[p].parentId)
    case Some(parent) =>
      var e := s.pcb[parent];
      s.(pcb := s.pcb[parent := e.(state := READY, childsIds := Cleared(e.childsIds, s.pcb[p].id))])
    case None => s
  }

  /**
    deleteProcess, as far as parents and children go.  Whom it wakes by looking at the timers again, and
    by closing the pipe ends of the process, is left out.
   */
  function DeleteProcess(s: Sched, p: int): (r: Sched)
    requires Shaped(s) && p in s.pcb
    ensures Shaped(r) && r == s.(pcb := r.pcb) && r.pcb.Keys == s.pcb.Keys
  {
    SetParentReady(CheckChilds(s, p), p)
  }

  /** checkExited on list i from position k on. */
  function SweepList(s: Sched, i: nat, k: nat): (r: Sched)
    requires Shaped(s) && i < LISTS && k <= |s.queues[i]|
    ensures Shaped(r)
    decreases |s.queues[i]| - k
  {
    var list := s.queues[i];
    if k == |list| then s
    else if s.pcb[list[k]].state == EXITED then
      SweepList(DeleteProcess(s.(queues := s.queues[i := list[..k] + list[k + 1..]]), list[k]), i, k)
    else SweepList(s, i, k + 1)
  }

  /** checkExited on lists i to 6. */
  function Sweep(s: Sched, i: nat): (r: Sched)
    requires Shaped(s) && i <= LISTS
    ensures Shaped(r)
    decreases LISTS - i
  {
    if i == LISTS then s else Sweep(SweepList(s, i, 0), i + 1)
  }

  function CheckExited(s: Sched): (r: Sched)
    requires Shaped(s)
    ensures Shaped(r)
  {
    var s' := Sweep(s, 0);
    if s'.pcb[s'.current].state == EXITED then NextProcess(CheckBlocked(DeleteProcess(s', s'.current))) else s'
  }

  // ---------- scheduler ----------

  function Age(s: Sched, interval: nat): (r: Sched)
    requires Shaped(s)
    ensures Shaped(r)
  {
    var e := s.pcb[s.current];
    s.(pcb := s.pcb[s.current := e.(agingInterval := e.agingInterval / 2 + interval)])
  }

  /** updateTimers, for the processes whose timers are due: all but EXITED ones become READY. */
  function Wake(s: Sched, due: seq<int>): (r: Sched)
    requires Shaped(s)
    ensures Shaped(r) && r == s.(pcb := r.pcb) && r.pcb.Keys == s.pcb.Keys
    ensures forall p | p in s.pcb ::
      r.pcb[p] == if p in due && s.pcb[p].state != EXITED then s.pcb[p].(state := READY) else s.pcb[p]
    decreases |due|
  {
    if due == [] then s
    else if due[0] in s.pcb && s.pcb[due[0]].state != EXITED then Wake(SetState(s, due[0], READY), due[1..])
    else Wake(s, due[1..])
  }

  function SpendQuantum(s: Sched): (r: Sched)
    requires Shaped(s)
    ensures Shaped(r)
  {
    var e := s.pcb[s.current];
    s.(pcb := s.pcb[s.current := e.(quantums := e.quantums - 1)])
  }

  /** scheduler up to the point where it decides whether to switch. */
  function BeforeSwitch(s: Sched, interval: nat, due: seq<int>): (r: Sched)
    requires Shaped(s)
    ensures Shaped(r)
  {
    SpendQuantum(CheckExited(CheckBlocked(Wake(Age(s, interval), due))))
  }

  predicate MustSwitch(s: Sched)
    requires Shaped(s)
  {
    var e := s.pcb[s.current];
    e.quantums < 1 || e.state == BLOCKED || e.state == YIELDED
  }

  /**
    scheduler, once a process is running; the interval is what the time stamp counter measured, due the
    processes whose timers have run out.
   */
  function Tick(s: Sched, interval: nat, due: seq<int>): (r: Sched)
    requires Shaped(s)
    ensures Shaped(r)
  {
    var s' := BeforeSwitch(s, interval, due);
    if MustSwitch(s') then NextProcess(s') else s'
  }
}
