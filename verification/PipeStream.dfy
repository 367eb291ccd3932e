/**
  What a pipe of Kernel/ipcRelated/pipe.c does to its two queues, and runs of it as a byte stream.  A
  write goes into the write end and is moved to the read end at once; the move ignores how much of it
  the read end accepted.
 */
module PipeStream {
  import opened Bytes
  import opened IpcBuffers

  /** The queue, state and cursor of either end. */
  datatype PipeState = PipeState(w: seq<byte>, r: seq<byte>, wState: BufferState, rState: BufferState,
                                 wCursor: nat, rCursor: nat)

  datatype End = ReadEnd | WriteEnd

  /** Both ends hold at most 1024 bytes. */
  predicate Fits(p: PipeState) {
    |p.w| <= BUFF_SIZE && |p.r| <= BUFF_SIZE
  }

  const OPENED := PipeState([], [], WRITE, READ, 0, 0)

  /** updateOppositeEnd: whatever the read end does not accept is gone. */
  function Move(p: PipeState): (r: PipeState)
    requires Fits(p)
    ensures Fits(r) && r.w == []
  {
    p.(w := [], r := p.r + p.w[..Accept(|p.r|, |p.w|)], wCursor := Advance(p.wCursor, |p.w|))
  }

  predicate TakesWrite(p: PipeState, count: nat) {
    count > 0 && |p.w| < BUFF_SIZE - 1 && CanWrite(p.wState)
  }

  function Accepted(p: PipeState, data: seq<byte>): (n: nat)
    requires Fits(p)
    ensures n <= |data| && |p.w| + n <= BUFF_SIZE
  {
    if CanWrite(p.wState) then Accept(|p.w|, |data|) else 0
  }

  function Write(p: PipeState, data: seq<byte>): (r: PipeState)
    requires Fits(p)
    ensures Fits(r)
  {
    if TakesWrite(p, |data|) then Move(p.(w := p.w + data[..Accepted(p, data)])) else p
  }

  function ReadCount(p: PipeState, count: nat): (n: nat)
    ensures n <= |p.r| && n <= count
  {
    if CanRead(p.rState) then ReadLen(p.r, count) else 0
  }

  /** The read end after the read proper. */
  function Taken(p: PipeState, count: nat): (r: PipeState)
    requires Fits(p)
    ensures Fits(r)
  {
    var rest := AfterRead(p.r, count);
    p.(r := rest, rCursor := Advance(p.rCursor, |p.r| - |rest|))
  }

  function Read(p: PipeState, count: nat): (r: PipeState)
    requires Fits(p)
    ensures Fits(r)
  {
    if count > 0 && CanRead(p.rState) && p.r != [] then Move(Taken(p, count)) else p
  }

  /** Closing an end that could be written puts a NUL into the other one, if that still accepts a byte. */
  function Close(p: PipeState, end: End): (r: PipeState)
    requires Fits(p)
    ensures Fits(r)
  {
    match end
    case WriteEnd =>
      p.(wState := CLOSED, r := if CanWrite(p.wState) then p.r + [0 as byte][..Accept(|p.r|, 1)] else p.r)
    case ReadEnd =>
      p.(rState := CLOSED, w := if CanWrite(p.rState) then p.w + [0 as byte][..Accept(|p.w|, 1)] else p.w)
  }

  // ---------- The stores as written ----------

  /** n stores behind a queue of dim bytes stay inside the array without a wrap. */
  predicate Straight(cursor: nat, dim: nat, n: nat) {
    n == 0 || cursor + dim + n <= BUFF_SIZE
  }

  predicate MoveInside(p: PipeState)
    requires Fits(p)
  {
    Straight(p.rCursor, |p.r|, Accept(|p.r|, |p.w|))
  }

  predicate WriteInside(p: PipeState, data: seq<byte>)
    requires Fits(p)
  {
    TakesWrite(p, |data|) ==>
      && Straight(p.wCursor, |p.w|, Accepted(p, data))
      && MoveInside(p.(w := p.w + data[..Accepted(p, data)]))
  }

  predicate ReadInside(p: PipeState, count: nat)
    requires Fits(p)
  {
    count > 0 && CanRead(p.rState) && p.r != [] ==> MoveInside(Taken(p, count))
  }

  predicate CloseInside(p: PipeState, end: End)
    requires Fits(p)
  {
    match end
    case WriteEnd => CanWrite(p.wState) ==> Straight(p.rCursor, |p.r|, Accept(|p.r|, 1))
    case ReadEnd => CanWrite(p.rState) ==> Straight(p.wCursor, |p.w|, Accept(|p.w|, 1))
  }

  // ---------- Runs ----------

  datatype Event = WriteEvent(data: seq<byte>) | ReadEvent(count: nat) | CloseEvent(end: End)

  /**
    A pipe and its history: the bytes writePipe said it took, the bytes that reached the read end, the
    bytes readPipe handed over, and how many bytes the read end ever stored.
   */
  datatype Trace = Trace(p: PipeState, accepted: seq<byte>, delivered: seq<byte>, got: seq<byte>, stored: nat)

  const START := Trace(OPENED, [], [], [], 0)

  function Happen(t: Trace, e: Event): (r: Trace)
    requires Fits(t.p)
    ensures Fits(r.p)
  {
    match e
    case WriteEvent(data) =>
      var r := Write(t.p, data);
      var arrived := r.r[if |r.r| < |t.p.r| then 0 else |t.p.r|..];
      Trace(r, t.accepted + data[..Accepted(t.p, data)], t.delivered + arrived, t.got, t.stored + |arrived|)
    case ReadEvent(count) => t.(p := Read(t.p, count), got := t.got + t.p.r[..ReadCount(t.p, count)])
    case CloseEvent(end) =>
      var r := Close(t.p, end);
      t.(p := r, stored := t.stored + if |r.r| > |t.p.r| then 1 else 0)
  }

  function Run(t: Trace, events: seq<Event>): (r: Trace)
    requires Fits(t.p)
    ensures Fits(r.p)
    decreases |events|
  {
    if events == [] then t else Run(Happen(t, events[0]), events[1..])
  }

  predicate NulFree(e: Event) {
    e.WriteEvent? ==> 0 !in e.data
  }

  ghost predicate AllNulFree(events: seq<Event>) {
    forall k | 0 <= k < |events| :: NulFree(events[k])
  }

  /** The data in the read end: what comes before the end-of-file mark, if there is one. */
  function Pending(r: seq<byte>): (d: seq<byte>)
    ensures 0 !in d && d <= r
  {
    r[..ReadLen(r, |r|)]
  }

  /** The mark, if any, is the last byte, and is only there once the write end is closed. */
  predicate MarkIsLast(p: PipeState) {
    p.r == Pending(p.r) || (p.r == Pending(p.r) + [0] && p.wState == CLOSED)
  }

  predicate Opened(p: PipeState) {
    p.wState in {WRITE, CLOSED} && p.rState in {READ, CLOSED}
  }

  /** The stream: what was handed over and what is pending make up what was delivered, in order. */
  ghost predicate Inv(t: Trace) {
    && Fits(t.p) && Opened(t.p) && t.p.w == []
    && MarkIsLast(t.p)
    && t.got + Pending(t.p.r) == t.delivered
    && |t.delivered| <= |t.accepted|
  }

  lemma PendingOf(d: seq<byte>)
    requires 0 !in d
    ensures Pending(d) == d && Pending(d + [0]) == d
  {
    StopsAtNul(d, d, |d|);
    StopsAtNul(d + [0], d, |d| + 1);
  }

  lemma {:induction false} StopsAtNul(q: seq<byte>, d: seq<byte>, count: nat)
    requires 0 !in d && d <= q && (|d| == |q| || q[|d|] == 0)
    ensures ReadLen(q, count) == if count < |d| then count else |d|
    decreases |d|
  {
    if d != [] && count > 0 {
      assert q[0] == d[0] && d[1..] <= q[1..];
      StopsAtNul(q[1..], d[1..], count - 1);
    }
  }

  /** How much of an accepted write arrives. */
  function Arrives(p: PipeState, data: seq<byte>): (k: nat)
    requires Fits(p)
    ensures k <= Accepted(p, data) <= |data|
  {
    Accept(|p.r|, Accepted(p, data))
  }

  lemma WriteEffect(t: Trace, data: seq<byte>)
    requires Fits(t.p) && t.p.w == []
    ensures var r, n, k := Happen(t, WriteEvent(data)), Accepted(t.p, data), Arrives(t.p, data);
      && r.p.r == t.p.r + data[..k] && r.p.w == []
      && r.p.wState == t.p.wState && r.p.rState == t.p.rState
      && r.accepted == t.accepted + data[..n] && r.delivered == t.delivered + data[..k]
      && r.got == t.got
  {
    var n := Accepted(t.p, data);
    if TakesWrite(t.p, |data|) {
      assert t.p.w + data[..n] == data[..n];
      assert data[..n][..Accept(|t.p.r|, n)] == data[..Accept(|t.p.r|, n)];
    }
  }

  lemma {:induction false} WriteKeepsInv(t: Trace, data: seq<byte>)
    requires Inv(t) && 0 !in data
    ensures Inv(Happen(t, WriteEvent(data)))
  {
    var k := Arrives(t.p, data);
    WriteEffect(t, data);
    if k > 0 {
      assert t.p.r == Pending(t.p.r);
      PendingOf(t.p.r + data[..k]);
    } else {
      assert t.p.r + data[..k] == t.p.r;
      assert t.delivered + data[..k] == t.delivered;
    }
  }

  /** What a read leaves of pending data and mark. */
  lemma ReadEffect(r: seq<byte>, d: seq<byte>, count: nat)
    requires 0 !in d && (r == d || r == d + [0]) && count > 0
    ensures var n := ReadLen(r, count);
      && n == (if count < |d| then count else |d|)
      && r[..n] == d[..n]
      && Pending(AfterRead(r, count)) == d[n..]
      && (AfterRead(r, count) == d[n..] || (r == d + [0] && AfterRead(r, count) == d[n..] + [0]))
  {
    StopsAtNul(r, d, count);
    var n := ReadLen(r, count);
    PendingOf(d[n..]);
  }

  lemma {:induction false} ReadHappens(t: Trace, count: nat)
    requires Fits(t.p) && t.p.w == [] && count > 0 && CanRead(t.p.rState)
    ensures var r := Happen(t, ReadEvent(count));
      && r.p.r == AfterRead(t.p.r, count) && r.p.w == []
      && r.p.wState == t.p.wState && r.p.rState == t.p.rState
      && r.accepted == t.accepted && r.delivered == t.delivered
      && r.got == t.got + t.p.r[..ReadLen(t.p.r, count)]
  {
  }

  lemma CutInTwo(got: seq<byte>, d: seq<byte>, n: nat)
    requires n <= |d|
    ensures got + d == (got + d[..n]) + d[n..]
  {
  }

  lemma {:induction false} ReadKeepsInv(t: Trace, count: nat)
    requires Inv(t)
    ensures Inv(Happen(t, ReadEvent(count)))
  {
    if count > 0 && CanRead(t.p.rState) {
      var d, n := Pending(t.p.r), ReadLen(t.p.r, count);
      ReadHappens(t, count);
      ReadEffect(t.p.r, d, count);
      CutInTwo(t.got, d, n);
    } else {
      assert t.got + t.p.r[..0] == t.got;
    }
  }

  lemma CloseKeepsInv(t: Trace, end: End)
    requires Inv(t)
    ensures Inv(Happen(t, CloseEvent(end)))
  {
    if end == WriteEnd && CanWrite(t.p.wState) {
      PendingOf(t.p.r);
    }
  }

  lemma {:induction false} RunKeepsInv(t: Trace, events: seq<Event>)
    requires Inv(t) && AllNulFree(events)
    ensures Inv(Run(t, events))
    decreases |events|
  {
    if events != [] {
      assert NulFree(events[0]);
      match events[0] {
        case WriteEvent(data) => WriteKeepsInv(t, data);
        case ReadEvent(count) => ReadKeepsInv(t, count);
        case CloseEvent(end) => CloseKeepsInv(t, end);
      }
      forall k | 0 <= k < |events[1..]| ensures NulFree(events[1..][k]) {
        assert NulFree(events[k + 1]);
      }
      RunKeepsInv(Happen(t, events[0]), events[1..]);
    }
  }

  // ---------- Nothing lost ----------

  /** The read end has room for everything the write end takes. */
  predicate HasRoom(p: PipeState, e: Event)
    requires Fits(p)
  {
    e.WriteEvent? ==>
      var n := Accepted(p, e.data);
      n == 0 || (|p.r| < BUFF_SIZE - 1 && n <= BUFF_SIZE - |p.r|)
  }

  predicate AllHaveRoom(t: Trace, events: seq<Event>)
    requires Fits(t.p)
    decreases |events|
  {
    events == [] || (HasRoom(t.p, events[0]) && AllHaveRoom(Happen(t, events[0]), events[1..]))
  }

  /** One write delivers a prefix of what it accepted, the whole of it exactly when there was room. */
  lemma WriteDelivers(t: Trace, data: seq<byte>)
    requires Inv(t)
    ensures var r, n := Happen(t, WriteEvent(data)), Accepted(t.p, data);
      && r.accepted == t.accepted + data[..n]
      && |r.delivered| - |t.delivered| <= n
      && r.delivered == t.delivered + data[..|r.delivered| - |t.delivered|]
      && (|r.delivered| - |t.delivered| == n <==> HasRoom(t.p, WriteEvent(data)))
  {
    WriteEffect(t, data);
  }

  lemma HappenGrows(t: Trace, e: Event)
    requires Inv(t)
    ensures var r := Happen(t, e);
      && |r.accepted| - |r.delivered| >= |t.accepted| - |t.delivered|
      && (|r.accepted| - |r.delivered| == |t.accepted| - |t.delivered| <==> HasRoom(t.p, e))
      && (t.delivered == t.accepted && HasRoom(t.p, e) ==> r.delivered == r.accepted)
  {
    if e.WriteEvent? { WriteDelivers(t, e.data); }
  }

  lemma {:induction false} LostIsLost(t: Trace, events: seq<Event>)
    requires Inv(t) && AllNulFree(events)
    ensures |Run(t, events).accepted| - |Run(t, events).delivered| >= |t.accepted| - |t.delivered|
    ensures t.delivered == t.accepted ==>
      (AllHaveRoom(t, events) <==> Run(t, events).delivered == Run(t, events).accepted)
    decreases |events|
  {
    if events != [] {
      var r := Happen(t, events[0]);
      HappenGrows(t, events[0]);
      RunKeepsInv(t, events[..1]);
      assert Run(t, events[..1]) == r by {
        assert events[..1][1..] == [];
      }
      forall k | 0 <= k < |events[1..]| ensures NulFree(events[1..][k]) {
        assert NulFree(events[k + 1]);
      }
      LostIsLost(r, events[1..]);
    }
  }

  /**
    The pipe as a FIFO, over any run of reads, NUL-free writes and closes, of any total length: the
    bytes handed over and the bytes pending are the bytes delivered, in order, the write end is empty
    between calls, and the bytes delivered are the bytes accepted exactly when every write found room.
   */
  lemma PipeIsAFifo(events: seq<Event>)
    requires AllNulFree(events)
    ensures var t := Run(START, events);
      && t.p.w == []
      && t.got + Pending(t.p.r) == t.delivered
      && (AllHaveRoom(START, events) <==> t.delivered == t.accepted)
      && (AllHaveRoom(START, events) ==> t.got <= t.accepted)
  {
    assert Inv(START);
    RunKeepsInv(START, events);
    LostIsLost(START, events);
  }

  lemma RunOfOne(t: Trace, e: Event)
    requires Fits(t.p)
    ensures Run(t, [e]) == Happen(t, e)
  {
    var r := Happen(t, e);
    assert Run(r, [e][1..]) == r;
  }

  lemma RunOfTwo(t: Trace, first: Event, second: Event)
    requires Fits(t.p)
    ensures Run(t, [first, second]) == Happen(Happen(t, first), second)
  {
    assert [first, second][1..] == [second];
    var r := Happen(t, first);
    RunOfOne(r, second);
  }

  /** An empty pipe takes and delivers a write of up to 1024 bytes whole. */
  lemma EmptyTakesAll(t: Trace, data: seq<byte>)
    requires t.p.w == [] && t.p.r == [] && CanWrite(t.p.wState) && |data| <= BUFF_SIZE
    ensures var r := Happen(t, WriteEvent(data));
      r.p.r == data && r.p.w == [] && r.p.wState == t.p.wState
    ensures Happen(t, WriteEvent(data)).accepted == t.accepted + data
    ensures Happen(t, WriteEvent(data)).delivered == t.delivered + data
  {
    assert Accepted(t.p, data) == |data| && Arrives(t.p, data) == |data|;
    WriteEffect(t, data);
    assert data[..|data|] == data;
  }

  lemma FullTakesNothing(t: Trace, more: seq<byte>)
    requires Fits(t.p) && t.p.w == [] && |t.p.r| == BUFF_SIZE && t.p.wState == WRITE
    ensures var r := Happen(t, WriteEvent(more));
      r.accepted == t.accepted + more[..Accept(0, |more|)] && r.delivered == t.delivered
  {
    WriteEffect(t, more);
    assert more[..0] == [];
  }

  /** A full read end drops what it cannot take although the writer is told that all was written. */
  lemma FullReadEndLosesData(data: seq<byte>, more: seq<byte>)
    requires |data| == BUFF_SIZE && |more| > 0
    ensures var t := Run(START, [WriteEvent(data), WriteEvent(more)]);
      t.accepted == data + more[..Accept(0, |more|)] && t.delivered == data
  {
    RunOfTwo(START, WriteEvent(data), WriteEvent(more));
    EmptyTakesAll(START, data);
    assert [] + data == data;
    FullTakesNothing(Happen(START, WriteEvent(data)), more);
  }

  /**
    A read with a positive count returns nothing exactly when everything delivered has been handed
    over, and then takes the end-of-file mark with it: the reader sees all data before the end.
   */
  lemma EmptyReadMeansAllRead(t: Trace, count: nat)
    requires Inv(t) && count > 0 && CanRead(t.p.rState)
    ensures ReadCount(t.p, count) == 0 <==> t.got == t.delivered
    ensures ReadCount(t.p, count) == 0 ==> Read(t.p, count).r == []
  {
    var d := Pending(t.p.r);
    StopsAtNul(t.p.r, d, count);
    assert |t.delivered| == |t.got| + |d|;
    if d == [] {
      assert t.got + d == t.got;
    }
  }

  /** A read from an end open for reading hands over as much of the pending data as was asked for, from its front. */
  lemma ReadHandsOver(t: Trace, count: nat)
    requires Inv(t) && count > 0 && (t.p.rState == READ || t.p.rState == READ_WRITE)
    ensures var r, d := Happen(t, ReadEvent(count)), Pending(t.p.r);
      && ReadCount(t.p, count) == (if count < |d| then count else |d|)
      && r.got == t.got + d[..ReadCount(t.p, count)]
      && Pending(r.p.r) == d[ReadCount(t.p, count)..]
      && r.delivered == t.delivered && r.accepted == t.accepted
  {
    ReadHappens(t, count);
    ReadEffect(t.p.r, Pending(t.p.r), count);
  }

  /** A write to an end open for writing takes all of it, or what fits; the read end is empty and then holds it. */
  lemma WriteTakes(t: Trace, data: seq<byte>)
    requires Inv(t) && t.p.wState == WRITE && t.p.r == []
    ensures var r, n := Happen(t, WriteEvent(data)), if |data| <= 1024 then |data| else 1024;
      && Accepted(t.p, data) == n && r.accepted == t.accepted + data[..n]
      && r.delivered == t.delivered + data[..n] && r.p.r == data[..n]
  {
    WriteEffect(t, data);
  }

  /** A closed end takes nothing and hands over nothing, and stays closed. */
  lemma ClosedIsClosed(p: PipeState, data: seq<byte>, count: nat)
    requires Fits(p)
    ensures Close(p, WriteEnd).wState == CLOSED && Close(p, ReadEnd).rState == CLOSED
    ensures Close(p, WriteEnd).rState == p.rState && Close(p, ReadEnd).wState == p.wState
    ensures p.wState == CLOSED || p.wState == READ ==> Write(p, data) == p && Accepted(p, data) == 0
    ensures p.rState == CLOSED || p.rState == WRITE ==> Read(p, count) == p && ReadCount(p, count) == 0
    ensures p.wState == CLOSED ==> Close(p, WriteEnd) == p
  {
    assert p.r + [] == p.r;
  }

  /** Why NUL-free: a NUL with data behind it is never consumed, and nothing is ever read past it. */
  lemma NulBlocksTheReader(p: PipeState, count: nat)
    requires Fits(p) && p.w == [] && |p.r| > 1 && p.r[0] == 0
    ensures ReadCount(p, count) == 0 && Read(p, count).r == p.r && Read(p, count).w == []
  {
    assert p.r[0..] == p.r;
    if count > 0 && CanRead(p.rState) {
      assert AfterRead(p.r, count) == p.r;
    }
  }

  /** The mark reaches the reader exactly when the read end accepts one more byte at the close. */
  lemma CloseMarks(t: Trace)
    requires Inv(t) && t.p.wState == WRITE
    ensures var r := Close(t.p, WriteEnd).r;
      && Pending(r) == t.p.r
      && (0 in r <==> |t.p.r| < BUFF_SIZE - 1)
  {
    PendingOf(t.p.r);
    if |t.p.r| < BUFF_SIZE - 1 {
      assert Close(t.p, WriteEnd).r[|t.p.r|] == 0;
    }
  }

  // ---------- The reach of the stores as written ----------

  predicate Inside(p: PipeState, e: Event)
    requires Fits(p)
  {
    match e
    case WriteEvent(data) => WriteInside(p, data)
    case ReadEvent(count) => ReadInside(p, count)
    case CloseEvent(end) => CloseInside(p, end)
  }

  predicate AllInside(t: Trace, events: seq<Event>)
    requires Fits(t.p)
    decreases |events|
  {
    events == [] || (Inside(t.p, events[0]) && AllInside(Happen(t, events[0]), events[1..]))
  }

  /** Either cursor has advanced by what its end took in and let out again. */
  ghost predicate Counted(t: Trace) {
    && Fits(t.p) && Opened(t.p) && t.p.w == []
    && |t.p.r| <= t.stored
    && t.p.wCursor == Advance(0, |t.accepted|)
    && t.p.rCursor == Advance(0, t.stored - |t.p.r|)
  }

  lemma AdvanceAdds(a: nat, b: nat)
    ensures Advance(Advance(0, a), b) == Advance(0, a + b)
    ensures a <= BUFF_SIZE ==> Advance(0, a) == a
  {
  }

  lemma {:induction false} HappenCounts(t: Trace, e: Event)
    requires Counted(t)
    ensures var r := Happen(t, e);
      Counted(r) && |r.accepted| >= |t.accepted| && r.stored >= t.stored
  {
    match e {
      case WriteEvent(data) =>
        var n := Accepted(t.p, data);
        if TakesWrite(t.p, |data|) {
          assert t.p.w + data[..n] == data[..n];
          AdvanceAdds(|t.accepted|, n);
        }
      case ReadEvent(count) =>
        if count > 0 && CanRead(t.p.rState) && t.p.r != [] {
          var rest := AfterRead(t.p.r, count);
          AdvanceAdds(t.stored - |t.p.r|, |t.p.r| - |rest|);
          AdvanceAdds(|t.accepted|, 0);
        }
      case CloseEvent(end) =>
    }
  }

  lemma InsideStep(t: Trace, e: Event)
    requires Counted(t) && |t.accepted| <= BUFF_SIZE && t.stored <= BUFF_SIZE
    ensures var r := Happen(t, e);
      Inside(t.p, e) <==> |r.accepted| <= BUFF_SIZE && r.stored <= BUFF_SIZE
  {
    AdvanceAdds(|t.accepted|, 0);
    AdvanceAdds(t.stored - |t.p.r|, 0);
    match e {
      case WriteEvent(data) =>
        var n := Accepted(t.p, data);
        if TakesWrite(t.p, |data|) {
          assert t.p.w + data[..n] == data[..n];
        }
      case ReadEvent(count) =>
      case CloseEvent(end) =>
    }
  }

  lemma {:induction false} RunGrows(t: Trace, events: seq<Event>)
    requires Counted(t)
    ensures |Run(t, events).accepted| >= |t.accepted| && Run(t, events).stored >= t.stored
    decreases |events|
  {
    if events != [] {
      HappenCounts(t, events[0]);
      RunGrows(Happen(t, events[0]), events[1..]);
    }
  }

  lemma {:induction false} InsideIffShort(t: Trace, events: seq<Event>)
    requires Counted(t) && |t.accepted| <= BUFF_SIZE && t.stored <= BUFF_SIZE
    ensures AllInside(t, events) <==>
      |Run(t, events).accepted| <= BUFF_SIZE && Run(t, events).stored <= BUFF_SIZE
    decreases |events|
  {
    if events != [] {
      var r := Happen(t, events[0]);
      HappenCounts(t, events[0]);
      InsideStep(t, events[0]);
      if Inside(t.p, events[0]) {
        InsideIffShort(r, events[1..]);
      } else {
        RunGrows(r, events[1..]);
      }
    }
  }

  /**
    As written, every store of a pipe's life falls inside its array if and only if neither end stores
    more than 1024 bytes, the end-of-file mark included, in its whole life.
   */
  lemma AsWrittenIffShort(events: seq<Event>)
    ensures var t := Run(START, events);
      AllInside(START, events) <==> |t.accepted| <= BUFF_SIZE && t.stored <= BUFF_SIZE
  {
    AdvanceAdds(0, 0);
    InsideIffShort(START, events);
  }
}
