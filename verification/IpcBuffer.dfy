/**
  The ring buffers of Kernel/ipcRelated/bufferManagement.c.  A buffer is 1024 bytes, a uint16 cursor
  that is never reduced below 65536, and a count; its content is the queue that starts at the cursor.

  The two stores index with cursor + bufferDim % BUFF_SIZE, where the loads index with
  cursor % BUFF_SIZE.  The flag parenthesised chooses between the store as written and the repaired
  (cursor + bufferDim) % BUFF_SIZE; as written a store is only inside the array before the wrap.
 */
module IpcBuffers {
  import opened Bytes

  const BUFF_SIZE: nat := 1024
  const UINT16: nat := 65536

  datatype BufferState = READ | WRITE | READ_WRITE | CLOSED

  predicate CanWrite(s: BufferState) { s == WRITE || s == READ_WRITE }

  predicate CanRead(s: BufferState) { s == READ || s == READ_WRITE }

  // ---------- The queue in a ring ----------

  function Slot(cursor: nat, k: nat): (r: nat)
    ensures r < BUFF_SIZE
  {
    (cursor + k) % 1024
  }

  lemma SlotsDiffer(cursor: nat, j: nat, k: nat)
    requires j < k < j + BUFF_SIZE
    ensures Slot(cursor, j) != Slot(cursor, k)
  {
  }

  /** The cursor's own wrap at 2^16 falls on a multiple of the size. */
  lemma SlotAfterWrap(cursor: nat, k: nat)
    requires cursor < UINT16
    ensures Slot((cursor + 1) % UINT16, k) == Slot(cursor, k + 1)
  {
  }

  /** The cursor n loads later. */
  function Advance(cursor: nat, n: nat): (r: nat)
    ensures r < UINT16
  {
    (cursor + n) % 65536
  }

  lemma AdvanceOnce(cursor: nat, n: nat)
    requires cursor < UINT16
    ensures Advance(Advance(cursor, n), 1) == Advance(cursor, n + 1) && Advance(cursor, 0) == cursor
  {
  }

  function Queue(buf: seq<byte>, cursor: nat, dim: nat): (q: seq<byte>)
    requires |buf| == BUFF_SIZE && dim <= BUFF_SIZE
    ensures |q| == dim
  {
    seq(dim, k requires 0 <= k < dim => buf[Slot(cursor, k)])
  }

  /** A store behind the last byte appends to the queue. */
  lemma QueueStore(buf: seq<byte>, cursor: nat, dim: nat, b: byte)
    requires |buf| == BUFF_SIZE && dim < BUFF_SIZE
    ensures Queue(buf[Slot(cursor, dim) := b], cursor, dim + 1) == Queue(buf, cursor, dim) + [b]
  {
    var after := buf[Slot(cursor, dim) := b];
    forall k | 0 <= k < dim ensures after[Slot(cursor, k)] == buf[Slot(cursor, k)] {
      SlotsDiffer(cursor, k, dim);
    }
  }

  /** Moving the cursor drops the first byte, across the wrap of the uint16 as well. */
  lemma QueueAdvance(buf: seq<byte>, cursor: nat, dim: nat)
    requires |buf| == BUFF_SIZE && 0 < dim <= BUFF_SIZE && cursor < UINT16
    ensures Queue(buf, (cursor + 1) % UINT16, dim - 1) == Queue(buf, cursor, dim)[1..]
    ensures Queue(buf, cursor, dim)[0] == buf[cursor % BUFF_SIZE]
  {
    var next := (cursor + 1) % UINT16;
    forall k | 0 <= k < dim - 1 ensures Slot(next, k) == Slot(cursor, k + 1) {
      SlotAfterWrap(cursor, k);
    }
  }

  // ---------- What the operations do to the queue ----------

  /** How many bytes a copy into a buffer of dim bytes accepts: none once there is room for one byte only. */
  function Accept(dim: nat, count: nat): (n: nat)
    requires dim <= BUFF_SIZE
    ensures n <= count && dim + n <= BUFF_SIZE
    ensures n == count <==> count == 0 || (dim < BUFF_SIZE - 1 && count <= BUFF_SIZE - dim)
    ensures if dim >= 1023 then n == 0 else n == count || dim + n == 1024
  {
    if dim >= BUFF_SIZE - 1 then 0 else if count <= BUFF_SIZE - dim then count else BUFF_SIZE - dim
  }

  /** How many bytes a read of count hands over: those before the first NUL. */
  function ReadLen(q: seq<byte>, count: nat): (n: nat)
    ensures n <= |q| && n <= count
    ensures 0 !in q[..n]
    ensures n == |q| || n == count || q[n] == 0
  {
    if q == [] || count == 0 || q[0] == 0 then 0
    else
      assert forall k :: 0 <= k <= ReadLen(q[1..], count - 1) ==> q[..k + 1] == [q[0]] + q[1..][..k];
      1 + ReadLen(q[1..], count - 1)
  }

  /** Where a read stands after n bytes that were not NUL. */
  ghost predicate Reading(q: seq<byte>, count: nat, n: nat) {
    n <= |q| && n <= count && ReadLen(q, count) == n + ReadLen(q[n..], count - n)
  }

  lemma ReadOneMore(q: seq<byte>, count: nat, n: nat)
    requires Reading(q, count, n) && n < |q| && n < count
    ensures q[n] == 0 ==> ReadLen(q, count) == n
    ensures q[n] != 0 ==> Reading(q, count, n + 1)
  {
    assert q[n..][0] == q[n] && q[n..][1..] == q[n + 1..];
  }

  /** A NUL found at the head is consumed only when it is all there is. */
  function AfterRead(q: seq<byte>, count: nat): (r: seq<byte>) {
    if count > 0 && q == [0] then [] else q[ReadLen(q, count)..]
  }

  // ---------- The buffer ----------

  class IPCBuffer {
    const parenthesised: bool
    const buffer: array<byte>
    var bufferDim: nat
    var cursor: nat
    var state: BufferState

    ghost predicate Valid()
      reads this
    {
      buffer.Length == BUFF_SIZE && bufferDim <= BUFF_SIZE && cursor < UINT16
    }

    ghost function Contents(): (q: seq<byte>)
      reads this, buffer
      requires Valid()
      ensures |q| == bufferDim
    {
      Queue(buffer[..], cursor, bufferDim)
    }

    /** The next n stores fall inside the array. */
    ghost predicate StoresInside(n: nat)
      reads this
    {
      parenthesised || n == 0 || cursor + bufferDim + n <= BUFF_SIZE
    }

    /** createEmptyBuffer, whose clearBuffer writes 1024 NULs and sets the two counters to zero. */
    constructor (parenthesised: bool, state: BufferState)
      ensures Valid() && Contents() == [] && cursor == 0
      ensures this.parenthesised == parenthesised && this.state == state && fresh(buffer)
    {
      this.parenthesised := parenthesised;
      this.state := state;
      buffer := new byte[BUFF_SIZE](_ => 0);
      bufferDim, cursor := 0, 0;
    }

    /** One store and its increment, as lines 57-58 and 105-106 have them. */
    method Store(b: byte)
      requires Valid() && bufferDim < BUFF_SIZE && StoresInside(1)
      modifies buffer, `bufferDim
      ensures Valid() && Contents() == old(Contents()) + [b] && bufferDim == old(bufferDim) + 1
    {
      var at := if parenthesised then (cursor + bufferDim) % BUFF_SIZE else cursor + bufferDim % BUFF_SIZE;
      assert at == Slot(cursor, bufferDim);
      QueueStore(buffer[..], cursor, bufferDim, b);
      ghost var before := buffer[..];
      buffer[at] := b;
      assert buffer[..] == before[at := b];
      bufferDim := bufferDim + 1;
    }

    /** One load, the cursor moving in sixteen bits. */
    method Load() returns (b: byte)
      requires Valid() && bufferDim > 0
      modifies `cursor, `bufferDim
      ensures Valid() && old(Contents()) == [b] + Contents()
      ensures bufferDim == old(bufferDim) - 1 && cursor == Advance(old(cursor), 1)
    {
      QueueAdvance(buffer[..], cursor, bufferDim);
      b := buffer[cursor % BUFF_SIZE];
      cursor, bufferDim := (cursor + 1) % UINT16, bufferDim - 1;
    }

    /** The loop shared by writeBuffer and copyToBuffer. */
    method Fill(data: array<byte>, count: nat) returns (bytesWritten: nat)
      requires Valid() && data != buffer && count <= data.Length && bufferDim < BUFF_SIZE - 1
      requires StoresInside(Accept(bufferDim, count))
      modifies buffer, `bufferDim
      ensures Valid() && bytesWritten == Accept(old(bufferDim), count)
      ensures Contents() == old(Contents()) + data[..bytesWritten]
    {
      bytesWritten := 0;
      while bufferDim < BUFF_SIZE && bytesWritten < count
        invariant Valid() && bytesWritten <= count
        invariant bufferDim == old(bufferDim) + bytesWritten
        invariant Contents() == old(Contents()) + data[..bytesWritten]
        invariant data[..] == old(data[..])
        decreases count - bytesWritten
      {
        assert data[..bytesWritten + 1] == data[..bytesWritten] + [data[bytesWritten]];
        Store(data[bytesWritten]);
        bytesWritten := bytesWritten + 1;
      }
    }

    method CopyToBuffer(toCopy: array?<byte>, count: nat) returns (bytesWritten: nat)
      requires Valid() && (toCopy != null ==> toCopy != buffer && count <= toCopy.Length)
      requires toCopy != null ==> StoresInside(Accept(bufferDim, count))
      modifies buffer, `bufferDim
      ensures Valid()
      ensures toCopy == null ==> bytesWritten == 0 && Contents() == old(Contents())
      ensures toCopy != null ==> bytesWritten == Accept(old(bufferDim), count)
      ensures toCopy != null ==> Contents() == old(Contents()) + toCopy[..bytesWritten]
    {
      if toCopy != null && count > 0 && bufferDim < BUFF_SIZE - 1 {
        bytesWritten := Fill(toCopy, count);
      } else {
        bytesWritten := 0;
      }
    }

    method WriteBuffer(dataToWrite: array?<byte>, count: nat) returns (bytesWritten: nat)
      requires Valid() && (dataToWrite != null ==> dataToWrite != buffer && count <= dataToWrite.Length)
      requires dataToWrite != null && CanWrite(state) ==> StoresInside(Accept(bufferDim, count))
      modifies buffer, `bufferDim
      ensures Valid()
      ensures dataToWrite == null || !CanWrite(state) ==> bytesWritten == 0 && Contents() == old(Contents())
      ensures dataToWrite != null && CanWrite(state) ==> bytesWritten == Accept(old(bufferDim), count)
      ensures dataToWrite != null ==> Contents() == old(Contents()) + dataToWrite[..bytesWritten]
    {
      if dataToWrite != null && count > 0 && bufferDim < BUFF_SIZE - 1 && (state == WRITE || state == READ_WRITE) {
        bytesWritten := Fill(dataToWrite, count);
      } else {
        bytesWritten := 0;
      }
    }

    /** One load into place n of the target, after n of them. */
    method LoadInto(target: array<byte>, n: nat, ghost q: seq<byte>, ghost before: seq<byte>, ghost from: nat)
      requires Valid() && target != buffer && bufferDim > 0 && n < target.Length
      requires n + bufferDim == |q| && Contents() == q[n..] && cursor == Advance(from, n) && from < UINT16
      requires |before| == target.Length && target[..] == q[..n] + before[n..]
      modifies `cursor, `bufferDim, target
      ensures Valid() && bufferDim == old(bufferDim) - 1
      ensures Contents() == q[n + 1..] && cursor == Advance(from, n + 1)
      ensures target[..] == q[..n + 1] + before[n + 1..]
    {
      AdvanceOnce(from, n);
      var b := Load();
      assert q[n..] == [b] + Contents();
      assert b == q[n];
      target[n] := b;
      assert target[..] == (q[..n] + before[n..])[n := b];
    }

    method CopyFromBuffer(toWrite: array?<byte>, count: nat) returns (bytesWritten: nat)
      requires Valid() && (toWrite != null ==> toWrite != buffer && count <= toWrite.Length)
      modifies `cursor, `bufferDim, toWrite
      ensures Valid()
      ensures bytesWritten == if toWrite == null then 0 else if count <= old(bufferDim) then count else old(bufferDim)
      ensures Contents() == old(Contents())[bytesWritten..]
      ensures cursor == Advance(old(cursor), bytesWritten)
      ensures toWrite != null ==> toWrite[..] == old(Contents())[..bytesWritten] + old(toWrite[..])[bytesWritten..]
    {
      bytesWritten := 0;
      AdvanceOnce(cursor, 0);
      if toWrite != null && count > 0 && bufferDim > 0 {
        ghost var q, before, from := Contents(), toWrite[..], cursor;
        while bufferDim > 0 && bytesWritten < count
          invariant Valid() && bytesWritten <= count && bytesWritten + bufferDim == |q|
          invariant Contents() == q[bytesWritten..] && cursor == Advance(from, bytesWritten)
          invariant toWrite[..] == q[..bytesWritten] + before[bytesWritten..]
          decreases bufferDim
        {
          LoadInto(toWrite, bytesWritten, q, before, from);
          bytesWritten := bytesWritten + 1;
        }
      }
    }

    /** The loop of readBuffer. */
    method Drain(buffToFill: array<byte>, count: nat) returns (bytesRead: nat)
      requires Valid() && buffToFill != buffer && 0 < count <= buffToFill.Length && bufferDim > 0
      modifies `cursor, `bufferDim, buffToFill
      ensures Valid() && bytesRead == ReadLen(old(Contents()), count)
      ensures Contents() == AfterRead(old(Contents()), count)
      ensures bufferDim <= old(bufferDim) && cursor == Advance(old(cursor), old(bufferDim) - bufferDim)
      ensures buffToFill[..] == old(Contents())[..bytesRead] + old(buffToFill[..])[bytesRead..]
    {
      bytesRead := 0;
      AdvanceOnce(cursor, 0);
      var dimAtCall := bufferDim;
      ghost var q, before, from := Contents(), buffToFill[..], cursor;
      while bufferDim > 0 && bytesRead < count
        invariant Valid() && bytesRead <= count && bytesRead + bufferDim == |q| == dimAtCall
        invariant Contents() == q[bytesRead..] && cursor == Advance(from, bytesRead)
        invariant Reading(q, count, bytesRead)
        invariant buffToFill[..] == q[..bytesRead] + before[bytesRead..]
        decreases bufferDim
      {
        QueueAdvance(buffer[..], cursor, bufferDim);
        var c := buffer[cursor % BUFF_SIZE];
        ReadOneMore(q, count, bytesRead);
        if c == 0 {
          if dimAtCall == 1 {
            var _ := Load();
          }
          return;
        }
        LoadInto(buffToFill, bytesRead, q, before, from);
        bytesRead := bytesRead + 1;
      }
    }

    method ReadBuffer(buffToFill: array?<byte>, count: nat) returns (bytesRead: nat)
      requires Valid() && (buffToFill != null ==> buffToFill != buffer && count <= buffToFill.Length)
      modifies `cursor, `bufferDim, buffToFill
      ensures Valid() && bytesRead <= |old(Contents())|
      ensures buffToFill == null || !CanRead(state) ==> bytesRead == 0 && Contents() == old(Contents())
      ensures buffToFill != null && CanRead(state) ==> bytesRead == ReadLen(old(Contents()), count)
      ensures buffToFill != null && CanRead(state) ==> Contents() == AfterRead(old(Contents()), count)
      ensures bufferDim <= old(bufferDim) && cursor == Advance(old(cursor), old(bufferDim) - bufferDim)
      ensures buffToFill != null ==>
        buffToFill[..] == old(Contents())[..bytesRead] + old(buffToFill[..])[bytesRead..]
    {
      if buffToFill != null && count > 0 && bufferDim > 0 && (state == READ || state == READ_WRITE) {
        bytesRead := Drain(buffToFill, count);
      } else {
        bytesRead := 0;
        AdvanceOnce(cursor, 0);
      }
    }

    method ClearBuffer()
      requires Valid()
      modifies this, buffer
      ensures Valid() && Contents() == [] && cursor == 0 && state == old(state)
      ensures forall k | 0 <= k < BUFF_SIZE :: buffer[k] == 0
    {
      var i := 0;
      while i < BUFF_SIZE
        invariant 0 <= i <= BUFF_SIZE
        invariant forall k | 0 <= k < i :: buffer[k] == 0
        invariant state == old(state)
      {
        buffer[i] := 0;
        i := i + 1;
      }
      bufferDim, cursor := 0, 0;
    }
  }
}
