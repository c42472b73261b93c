/** The emulator state and its instrumented machine, updated in place. Every method is proved
    against the value-level step; with proofs enabled the machine also records the Merkle
    proof of the one address it accesses. */
module Instrumented {
  import opened Words
  import opened Results
  import opened MerkleTree
  import opened UpperTree
  import opened PagedMemory
  import opened Alu
  import opened Cpu
  import opened Witness
  import opened Machine
  import opened MemoryReaders

  const NO_ACCESS: Word := 0xFFFF_FFFF

  /** Appends to the written prefix of a buffer. */
  method Put(buffer: array<Byte>, at: nat, bytes: seq<Byte>)
    requires at + |bytes| <= buffer.Length
    modifies buffer
    ensures buffer[..at + |bytes|] == old(buffer[..at]) + bytes
  {
    CopyInto(buffer, at, bytes);
  }

  class State {
    const memory: Memory
    const registers: array<Word>
    var preimageKey: Digest
    var preimageOffset: Word
    var pc: Word
    var nextPc: Word
    var lo: Word
    var hi: Word
    var heap: Word
    var exitCode: Byte
    var exited: bool
    var step: Long
    var lastHint: seq<Byte>

    ghost predicate Valid()
      reads this, registers, memory, memory.Repr
    {
      && registers.Length == 32
      && this !in memory.Repr && registers !in memory.Repr
      && memory.Valid()
    }

    /** The registers and scalar fields as one value. */
    ghost function Snapshot(): Cpu
      requires registers.Length == 32
      reads this, registers
    {
      Cpu(preimageKey, preimageOffset, pc, nextPc, lo, hi, heap, exitCode, exited, step, registers[..])
    }

    constructor (memory: Memory)
      requires memory.Valid()
      ensures Valid() && this.memory == memory && fresh(registers)
      ensures Snapshot() == Cpu(ZERO_LEAF, 0, 0, 0, 0, 0, 0, 0, false, 0, seq(32, _ => 0)) && lastHint == []
    {
      this.memory := memory;
      registers := new Word[32](_ => 0);
      preimageKey := ZERO_LEAF;
      preimageOffset, pc, nextPc, lo, hi, heap, exitCode, exited, step := 0, 0, 0, 0, 0, 0, 0, false, 0;
      lastHint := [];
      new;
      assert registers[..] == seq(32, _ => 0);
    }

    /** The slices of the witness up to the program counters, in order. */
    method PutControl(buffer: array<Byte>, root: Digest)
      requires registers.Length == 32 && buffer.Length == STATE_WITNESS_SIZE
      modifies buffer
      ensures buffer[..76] == root + preimageKey + BytesOf(preimageOffset) + BytesOf(pc) + BytesOf(nextPc)
    {
      hide BytesOf;
      Put(buffer, 0, root);
      Put(buffer, 32, preimageKey);
      Put(buffer, 64, BytesOf(preimageOffset));
      Put(buffer, 68, BytesOf(pc));
      Put(buffer, 72, BytesOf(nextPc));
    }

    /** The remaining scalar slices. */
    method PutScalars(buffer: array<Byte>, root: Digest)
      requires registers.Length == 32 && buffer.Length == STATE_WITNESS_SIZE
      modifies buffer
      ensures buffer[..98] == EncodeHead(root, Snapshot())
    {
      hide BytesOf, LongBytesOf;
      PutControl(buffer, root);
      Put(buffer, 76, BytesOf(lo));
      Put(buffer, 80, BytesOf(hi));
      Put(buffer, 84, BytesOf(heap));
      Put(buffer, 88, [exitCode]);
      Put(buffer, 89, [if exited then 1 else 0]);
      Put(buffer, 90, LongBytesOf(step));
    }

    /** Writes the witness slice by slice, then the registers. Only memory caches change. */
    method EncodeWitness() returns (r: Result<seq<Byte>>)
      requires Valid()
      modifies memory`nodes, memory.Repr - {memory}
      ensures Valid()
      ensures r == Ok(Encode(TreeRoot(memory.contents), Snapshot()))
    {
      hide NodesCorrect, Memory.PagesMatch, Memory.PagesApart, Memory.SlotsMatch, TreeRoot, BytesOf, EncodeHead,
        EncodeRegisters;
      var root := memory.MerkleRoot();
      var buffer := new Byte[226](_ => 0);
      PutScalars(buffer, root.value);
      ghost var head := EncodeHead(root.value, Snapshot());
      EncodeNoRegisters();
      for i := 0 to 32
        modifies buffer
        invariant buffer !in memory.Repr && Valid()
        invariant buffer[..98 + 4 * i] == head + EncodeRegisters(registers[..i])
      {
        EncodeOneMore(registers[..i], registers[i]);
        assert registers[..i + 1] == registers[..i] + [registers[i]];
        Put(buffer, 98 + 4 * i, BytesOf(registers[i]));
      }
      assert registers[..32] == registers[..] && buffer[..226] == buffer[..];
      r := Ok(buffer[..]);
    }
  }
}
