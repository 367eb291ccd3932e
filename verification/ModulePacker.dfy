/**
  buildImage of Toolchain/ModulePacker/main.c.  A file to read is its bytes, a position and the end
  flag that feof reads; the file written is the bytes appended so far.  Files that cannot be opened or
  read are not part of this model.
 */
module ModulePacker {
  import opened Bytes
  import opened ModuleImage

  const BUFFER_SIZE: nat := 128

  class Source {
    const bytes: seq<byte>
    var pos: nat
    var eof: bool

    ghost predicate Valid()
      reads this
    {
      pos <= |bytes|
    }

    constructor Open(bytes: seq<byte>)
      ensures Valid() && this.bytes == bytes && pos == 0 && !eof
    {
      this.bytes := bytes;
      pos, eof := 0, false;
    }

    /** fread: up to n bytes; only running out of them sets the end flag. */
    method Read(n: nat) returns (buffer: seq<byte>)
      requires Valid()
      modifies this
      ensures Valid() && |buffer| <= n && pos == old(pos) + |buffer|
      ensures bytes[..pos] == old(bytes[..pos]) + buffer
      ensures eof <==> old(eof) || |buffer| < n
      ensures |buffer| < n ==> pos == |bytes|
    {
      var k := if n <= |bytes| - pos then n else |bytes| - pos;
      buffer := bytes[pos..pos + k];
      pos := pos + k;
      if k < n { eof := true; }
    }
  }

  class Target {
    var bytes: seq<byte>

    constructor Open()
      ensures bytes == []
    {
      bytes := [];
    }

    method Write(buffer: seq<byte>)
      modifies this
      ensures bytes == old(bytes) + buffer
    {
      bytes := bytes + buffer;
    }
  }

  /** write_file: chunks of 128 bytes until the end flag, so that a whole last chunk is followed by an empty one. */
  method WriteFile(target: Target, source: Source)
    requires source.Valid() && source.pos == 0 && !source.eof
    modifies target, source
    ensures target.bytes == old(target.bytes) + source.bytes
  {
    while !source.eof
      invariant source.Valid()
      invariant target.bytes == old(target.bytes) + source.bytes[..source.pos]
      invariant source.eof ==> source.pos == |source.bytes|
      decreases |source.bytes| - source.pos, !source.eof
    {
      var buffer := source.Read(BUFFER_SIZE);
      target.Write(buffer);
    }
    assert source.bytes[..source.pos] == source.bytes;
  }

  method WriteSize(target: Target, file: seq<byte>)
    modifies target
    ensures target.bytes == old(target.bytes) + U32(|file|)
  {
    var size := |file| % WORD32;
    SizeTruncates(|file|);
    target.Write(U32(size));
  }

  lemma LowByte(a: nat, b: nat)
    ensures (256 * a + b) % 256 == b % 256
  {
  }

  lemma LowBytes(q: nat, r: nat)
    ensures (0x1_0000_0000 * q + r) / 256 == 256 * (65536 * q) + r / 256
    ensures (0x1_0000_0000 * q + r) / 65536 == 256 * (256 * q) + r / 65536
    ensures (0x1_0000_0000 * q + r) / 16777216 == 256 * q + r / 16777216
  {
  }

  /** The bytes of a size only depend on its low 32 bits. */
  lemma SizeTruncates(n: nat)
    ensures U32(n % WORD32) == U32(n)
  {
    var q, r := n / WORD32, n % WORD32;
    LowBytes(q, r);
    LowByte(16777216 * q, r);
    LowByte(65536 * q, r / 256);
    LowByte(256 * q, r / 65536);
    LowByte(q, r / 16777216);
  }

  method BuildImage(fileArray: seq<seq<byte>>) returns (target: Target)
    requires fileArray != []
    ensures fresh(target) && target.bytes == Image(fileArray)
  {
    target := new Target.Open();
    var kernel := new Source.Open(fileArray[0]);
    WriteFile(target, kernel);
    var extraBinaries := |fileArray| - 1;
    target.Write(U32(extraBinaries));
    ghost var header := target.bytes;
    var i := 1;
    while i < |fileArray|
      invariant 1 <= i <= |fileArray|
      invariant target.bytes == header + Modules(fileArray[1..i])
    {
      var source := new Source.Open(fileArray[i]);
      WriteSize(target, fileArray[i]);
      WriteFile(target, source);
      assert fileArray[1..i + 1][..i - 1] == fileArray[1..i];
      i := i + 1;
    }
    assert fileArray[1..i] == fileArray[1..];
  }
}
