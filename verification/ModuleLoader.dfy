/**
  loadModules of Kernel/moduleLoader.c and the memcpy of Kernel/lib.c, over one array of bytes that
  stands for the address space.
 */
module ModuleLoader {
  import opened Bytes
  import opened Options
  import opened ModuleImage

  /** Storing four bytes that were read together is the same as four byte copies at word distance. */
  lemma WordStep(m: seq<byte>, d: nat, s: nat, k: nat)
    requires d + k + 4 <= |m| && s + k + 4 <= |m| && d % 4 == s % 4
    ensures var w := Forward(m, d, s, k);
      Forward(m, d, s, k + 4) ==
        w[d + k := w[s + k]][d + k + 1 := w[s + k + 1]][d + k + 2 := w[s + k + 2]][d + k + 3 := w[s + k + 3]]
  {
    WordDistance(d, s);
    var w := Forward(m, d, s, k);
    var w1 := Forward(m, d, s, k + 1);
    var w2 := Forward(m, d, s, k + 2);
    var w3 := Forward(m, d, s, k + 3);
    assert w1 == w[d + k := w[s + k]];
    assert w2 == w1[d + k + 1 := w[s + k + 1]];
    assert w3 == w2[d + k + 2 := w[s + k + 2]];
  }

  lemma WordDistance(d: nat, s: nat)
    requires d % 4 == s % 4
    ensures d == s || d >= s + 4 || s >= d + 4
  {
  }

  /**
    memcpy: word by word when both addresses and the length are multiples of four, byte by byte
    otherwise.  Both paths leave the same memory, overlapping ranges included.
   */
  method Memcpy(mem: array<byte>, destination: nat, source: nat, length: nat)
    requires destination + length <= mem.Length && source + length <= mem.Length
    modifies mem
    ensures mem[..] == Forward(old(mem[..]), destination, source, length)
  {
    if destination % 4 == 0 && source % 4 == 0 && length % 4 == 0 {
      CopyWords(mem, destination, source, length / 4);
    } else {
      var i := 0;
      while i < length
        invariant 0 <= i <= length
        invariant mem[..] == Forward(old(mem[..]), destination, source, i)
      {
        mem[destination + i] := mem[source + i];
        i := i + 1;
      }
    }
  }

  /** The word path. */
  method CopyWords(mem: array<byte>, destination: nat, source: nat, words: nat)
    requires destination + 4 * words <= mem.Length && source + 4 * words <= mem.Length
    requires destination % 4 == source % 4
    modifies mem
    ensures mem[..] == Forward(old(mem[..]), destination, source, 4 * words)
  {
    var i := 0;
    while i < words
      invariant 0 <= i <= words
      invariant mem[..] == Forward(old(mem[..]), destination, source, 4 * i)
    {
      WordStep(old(mem[..]), destination, source, 4 * i);
      CopyWord(mem, destination + 4 * i, source + 4 * i);
      i := i + 1;
    }
  }

  /** One 32-bit load and one 32-bit store. */
  method CopyWord(mem: array<byte>, d: nat, s: nat)
    requires d + 4 <= mem.Length && s + 4 <= mem.Length
    modifies mem
    ensures var w := old(mem[..]);
      mem[..] == w[d := w[s]][d + 1 := w[s + 1]][d + 2 := w[s + 2]][d + 3 := w[s + 3]]
  {
    mem[d], mem[d + 1], mem[d + 2], mem[d + 3] := mem[s], mem[s + 1], mem[s + 2], mem[s + 3];
  }

  /** readUint32: the value, and the address moved behind it. */
  method ReadUint32(mem: array<byte>, address: nat) returns (result: nat, next: nat)
    requires address + 4 <= mem.Length
    ensures result == Word(mem[..], address) && next == address + 4
  {
    result := Value(mem[address], mem[address + 1], mem[address + 2], mem[address + 3]);
    next := address + 4;
  }

  method LoadOneModule(mem: array<byte>, module_: nat, targetModuleAddress: nat) returns (next: nat)
    requires LoadModule(Loader(mem[..], module_), targetModuleAddress).Some?
    modifies mem
    ensures Some(Loader(mem[..], next)) == LoadModule(Loader(old(mem[..]), module_), targetModuleAddress)
  {
    var moduleSize, data := ReadUint32(mem, module_);
    Memcpy(mem, targetModuleAddress, data, moduleSize);
    next := data + moduleSize;
  }

  /** Where the module pointer is left is returned as well; the original only keeps it in a local variable. */
  method LoadModules(mem: array<byte>, payloadStart: nat, targets: seq<nat>) returns (end: nat)
    requires payloadStart + 4 <= mem.Length && Word(mem[..], payloadStart) <= |targets|
    requires Load(Loader(mem[..], payloadStart + 4), targets, Word(mem[..], payloadStart)).Some?
    modifies mem
    ensures Some(Loader(mem[..], end)) ==
      Load(Loader(old(mem[..]), payloadStart + 4), targets, Word(old(mem[..]), payloadStart))
  {
    var moduleCount, currentModule := ReadUint32(mem, payloadStart);
    ghost var result := Load(Loader(mem[..], currentModule), targets, moduleCount);
    var i := 0;
    while i < moduleCount
      invariant 0 <= i <= moduleCount
      invariant result.Some? && Load(Loader(mem[..], currentModule), targets[i..], moduleCount - i) == result
    {
      currentModule := LoadOneModule(mem, currentModule, targets[i]);
      assert targets[i..][1..] == targets[i + 1..];
      i := i + 1;
    }
    end := currentModule;
  }

  /** The loader run on a packed image ends behind it, with every module where its target says. */
  method LoadPacked(mem: array<byte>, payloadStart: nat, targets: seq<nat>, ghost kernel: seq<byte>,
                    ghost ms: seq<seq<byte>>, ghost start: nat, ghost q: nat) returns (end: nat)
    requires ImageAt(mem[..], kernel, ms, start, payloadStart, q)
    requires TargetsFit(mem.Length, payloadStart + 4, targets, ms)
    modifies mem
    ensures end == q && Arrived(old(mem[..]), mem[..], targets, ms)
  {
    ghost var r := ImageRoundTrip(mem[..], kernel, ms, start, payloadStart, q, targets);
    end := LoadModules(mem, payloadStart, targets);
  }
}
