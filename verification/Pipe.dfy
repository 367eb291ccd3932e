/**
  writePipe, readPipe and closePipe of Kernel/ipcRelated/pipe.c over the two buffers of one pipe.
  Waking up the processes that refer to an end, and freeing both ends once both are closed, are not
  part of this model.
 */
module Pipes {
  import opened Bytes
  import opened IpcBuffers
  import PS = PipeStream

  class Pipe {
    const rEnd: IPCBuffer
    const wEnd: IPCBuffer

    ghost predicate Valid()
      reads this, rEnd, wEnd
    {
      && rEnd != wEnd && rEnd.buffer != wEnd.buffer
      && rEnd.Valid() && wEnd.Valid()
      && rEnd.parenthesised == wEnd.parenthesised
    }

    ghost function Repr(): set<object>
      reads this
    {
      {rEnd, wEnd, rEnd.buffer, wEnd.buffer}
    }

    ghost function Abs(): (p: PS.PipeState)
      reads this, rEnd, wEnd, rEnd.buffer, wEnd.buffer
      requires Valid()
      ensures PS.Fits(p)
    {
      PS.PipeState(wEnd.Contents(), rEnd.Contents(), wEnd.state, rEnd.state, wEnd.cursor, rEnd.cursor)
    }

    /** openPipe: two empty buffers, one to read from and one to write to. */
    constructor (parenthesised: bool)
      ensures Valid() && Abs() == PS.OPENED && rEnd.parenthesised == parenthesised
      ensures fresh(Repr())
    {
      rEnd := new IPCBuffer(parenthesised, READ);
      wEnd := new IPCBuffer(parenthesised, WRITE);
    }

    method UpdateOppositeEnd()
      requires Valid() && (rEnd.parenthesised || PS.MoveInside(Abs()))
      modifies Repr()
      ensures Valid() && Abs() == PS.Move(old(Abs()))
    {
      ghost var p := Abs();
      var auxBuff := new byte[BUFF_SIZE](_ => 0);
      var bytesWritten := wEnd.CopyFromBuffer(auxBuff, BUFF_SIZE);
      assert rEnd.Contents() == p.r && auxBuff[..bytesWritten] == p.w;
      assert wEnd.Contents() == [];
      if bytesWritten != 0 {
        var taken := rEnd.CopyToBuffer(auxBuff, bytesWritten);
        assert auxBuff[..taken] == p.w[..taken];
      } else {
        assert p.r + p.w[..0] == p.r;
      }
    }

    method WritePipe(dataToRead: array?<byte>, count: nat) returns (bytesWritten: nat)
      requires Valid()
      requires dataToRead != null ==> dataToRead !in Repr() && count <= dataToRead.Length
      requires dataToRead != null ==> rEnd.parenthesised || PS.WriteInside(Abs(), dataToRead[..count])
      modifies Repr()
      ensures Valid()
      ensures dataToRead == null ==> bytesWritten == 0 && Abs() == old(Abs())
      ensures dataToRead != null ==> bytesWritten <= count
      ensures dataToRead != null ==> Abs() == PS.Write(old(Abs()), dataToRead[..count])
      ensures dataToRead != null ==> old(PS.TakesWrite(Abs(), count)) ==>
        bytesWritten == PS.Accepted(old(Abs()), dataToRead[..count])
      ensures dataToRead != null ==> !old(PS.TakesWrite(Abs(), count)) ==> bytesWritten == 0
    {
      if dataToRead != null && count > 0 && wEnd.bufferDim < BUFF_SIZE - 1
        && (wEnd.state == WRITE || wEnd.state == READ_WRITE)
      {
        ghost var p, data := Abs(), dataToRead[..count];
        bytesWritten := wEnd.WriteBuffer(dataToRead, count);
        assert dataToRead[..bytesWritten] == data[..bytesWritten];
        assert Abs() == p.(w := p.w + data[..PS.Accepted(p, data)]);
        UpdateOppositeEnd();
      } else {
        bytesWritten := 0;
      }
    }

    method ReadPipe(buffToFill: array?<byte>, count: nat) returns (bytesRead: nat)
      requires Valid()
      requires buffToFill != null ==> buffToFill !in Repr() && count <= buffToFill.Length
      requires buffToFill != null ==> rEnd.parenthesised || PS.ReadInside(Abs(), count)
      modifies Repr(), buffToFill
      ensures Valid()
      ensures buffToFill == null ==> bytesRead == 0 && Abs() == old(Abs())
      ensures buffToFill != null ==> bytesRead == PS.ReadCount(old(Abs()), count)
      ensures buffToFill != null ==> buffToFill[..] == old(Abs()).r[..bytesRead] + old(buffToFill[..])[bytesRead..]
      ensures buffToFill != null ==> Abs() == PS.Read(old(Abs()), count)
    {
      if buffToFill != null && count > 0 && (rEnd.state == READ || rEnd.state == READ_WRITE) && rEnd.bufferDim > 0 {
        bytesRead := ReadAndMove(buffToFill, count);
      } else {
        bytesRead := 0;
        assert old(Abs()).r[..0] == [];
      }
    }

    method ReadAndMove(buffToFill: array<byte>, count: nat) returns (bytesRead: nat)
      requires Valid() && buffToFill !in Repr() && 0 < count <= buffToFill.Length
      requires CanRead(rEnd.state) && rEnd.bufferDim > 0
      requires rEnd.parenthesised || PS.ReadInside(Abs(), count)
      modifies Repr(), buffToFill
      ensures Valid() && bytesRead == ReadLen(old(Abs()).r, count)
      ensures buffToFill[..] == old(Abs()).r[..bytesRead] + old(buffToFill[..])[bytesRead..]
      ensures Abs() == PS.Read(old(Abs()), count)
    {
      bytesRead := ReadOnly(buffToFill, count);
      UpdateOppositeEnd();
    }

    /** The readBuffer half of readPipe. */
    method ReadOnly(buffToFill: array<byte>, count: nat) returns (bytesRead: nat)
      requires Valid() && buffToFill !in Repr() && 0 < count <= buffToFill.Length && CanRead(rEnd.state)
      modifies rEnd`cursor, rEnd`bufferDim, buffToFill
      ensures Valid() && bytesRead == ReadLen(old(Abs()).r, count)
      ensures buffToFill[..] == old(Abs()).r[..bytesRead] + old(buffToFill[..])[bytesRead..]
      ensures Abs() == PS.Taken(old(Abs()), count)
    {
      bytesRead := rEnd.ReadBuffer(buffToFill, count);
    }

    method ClosePipe(end: PS.End)
      requires Valid() && (rEnd.parenthesised || PS.CloseInside(Abs(), end))
      modifies Repr()
      ensures Valid() && Abs() == PS.Close(old(Abs()), end)
    {
      ghost var p := Abs();
      var bufferEnd, otherEnd := wEnd, rEnd;
      if end.ReadEnd? {
        bufferEnd, otherEnd := rEnd, wEnd;
      }
      if bufferEnd.state == WRITE || bufferEnd.state == READ_WRITE {
        var c := new byte[1](_ => 0);
        var n := otherEnd.CopyToBuffer(c, 1);
        assert c[..n] == [0][..n];
      }
      bufferEnd.state := CLOSED;
    }
  }
}
