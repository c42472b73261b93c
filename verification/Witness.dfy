/** The 226-byte state witness: memory root and registers in fixed slices, and its decoding. */
module Witness {
  import opened Words
  import opened Results
  import opened MerkleTree
  import opened Cpu

  const STATE_WITNESS_SIZE := 226

  function EncodeRegisters(registers: seq<Word>): (b: seq<Byte>)
    ensures |b| == 4 * |registers|
  {
    if registers == [] then [] else BytesOf(registers[0]) + EncodeRegisters(registers[1..])
  }

  function DecodeRegisters(b: seq<Byte>): (registers: seq<Word>)
    requires |b| % 4 == 0
    ensures 4 * |registers| == |b|
  {
    if |b| < 4 then [] else [WordOf(b[..4])] + DecodeRegisters(b[4..])
  }

  /** The memory root and the scalar fields, in witness order. */
  function EncodeHead(root: Digest, c: Cpu): (b: seq<Byte>)
    ensures |b| == 98
  {
    root + c.preimageKey + BytesOf(c.preimageOffset) + BytesOf(c.pc) + BytesOf(c.nextPc) + BytesOf(c.lo)
    + BytesOf(c.hi) + BytesOf(c.heap) + [c.exitCode] + [if c.exited then 1 else 0] + LongBytesOf(c.step)
  }

  function Encode(root: Digest, c: Cpu): (b: seq<Byte>)
    ensures |b| == STATE_WITNESS_SIZE
  {
    EncodeHead(root, c) + EncodeRegisters(c.registers)
  }

  function DecodeRoot(b: seq<Byte>): Digest
    requires |b| == STATE_WITNESS_SIZE
  {
    b[..32]
  }

  function DecodeCpu(b: seq<Byte>): Cpu
    requires |b| == STATE_WITNESS_SIZE
  {
    Cpu(b[32..64], WordOf(b[64..68]), WordOf(b[68..72]), WordOf(b[72..76]), WordOf(b[76..80]),
        WordOf(b[80..84]), WordOf(b[84..88]), b[88], b[89] == 1, LongOf(b[90..98]), DecodeRegisters(b[98..]))
  }

  lemma EncodeNoRegisters()
    ensures EncodeRegisters([]) == []
  {
  }

  lemma {:induction false} EncodeOneMore(registers: seq<Word>, w: Word)
    ensures EncodeRegisters(registers + [w]) == EncodeRegisters(registers) + BytesOf(w)
  {
    if registers == [] {
      assert registers + [w] == [w];
    } else {
      assert (registers + [w])[1..] == registers[1..] + [w];
      EncodeOneMore(registers[1..], w);
    }
  }

  lemma {:induction false} RegistersRoundTrip(registers: seq<Word>)
    ensures DecodeRegisters(EncodeRegisters(registers)) == registers
  {
    if registers != [] {
      var b := EncodeRegisters(registers);
      assert b[..4] == BytesOf(registers[0]) && b[4..] == EncodeRegisters(registers[1..]);
      WordRoundTrip(registers[0]);
      RegistersRoundTrip(registers[1..]);
    }
  }

  /** Where each field of the encoding lies. */
  lemma EncodingSlices(root: Digest, c: Cpu)
    ensures var b := Encode(root, c);
      && b[..32] == root && b[32..64] == c.preimageKey
      && b[64..68] == BytesOf(c.preimageOffset) && b[68..72] == BytesOf(c.pc) && b[72..76] == BytesOf(c.nextPc)
      && b[76..80] == BytesOf(c.lo) && b[80..84] == BytesOf(c.hi) && b[84..88] == BytesOf(c.heap)
      && b[88] == c.exitCode && b[89] == (if c.exited then 1 else 0)
      && b[90..98] == LongBytesOf(c.step) && b[98..] == EncodeRegisters(c.registers)
  {
    hide BytesOf, LongBytesOf, EncodeRegisters;
  }

  /** The witness determines the root and every register: decoding inverts encoding. */
  lemma WitnessRoundTrip(root: Digest, c: Cpu)
    ensures DecodeRoot(Encode(root, c)) == root && DecodeCpu(Encode(root, c)) == c
  {
    hide Encode, EncodeRegisters, DecodeRegisters, BytesOf, LongBytesOf, WordOf, LongOf;
    EncodingSlices(root, c);
    WordRoundTrip(c.preimageOffset);
    WordRoundTrip(c.pc);
    WordRoundTrip(c.nextPc);
    WordRoundTrip(c.lo);
    WordRoundTrip(c.hi);
    WordRoundTrip(c.heap);
    LongRoundTrip(c.step);
    RegistersRoundTrip(c.registers);
  }

  lemma WitnessInjective(root: Digest, c: Cpu, root': Digest, c': Cpu)
    requires Encode(root, c) == Encode(root', c')
    ensures root == root' && c == c'
  {
    WitnessRoundTrip(root, c);
    WitnessRoundTrip(root', c');
  }

  /** Register `i` is the big-endian word at offset 98 + 4 i. */
  lemma {:induction false} RegisterSlice(registers: seq<Word>, i: nat)
    requires i < |registers|
    ensures EncodeRegisters(registers)[4 * i..4 * i + 4] == BytesOf(registers[i])
    decreases registers
  {
    if i > 0 {
      RegisterSlice(registers[1..], i - 1);
      var rest := EncodeRegisters(registers[1..]);
      assert EncodeRegisters(registers)[4 * i..4 * i + 4] == rest[4 * (i - 1)..4 * (i - 1) + 4];
    }
  }

  const VALID: Byte := 0
  const INVALID: Byte := 1
  const PANIC: Byte := 2
  const UNFINISHED: Byte := 3

  function VmStatus(exited: bool, exitCode: Byte): Byte {
    if !exited then UNFINISHED
    else if exitCode == 0 then VALID
    else if exitCode == 1 then INVALID
    else PANIC
  }

  /** The state hash: the hash of the witness with the status in its first byte. */
  function StateHash(b: seq<Byte>): Digest
    requires |b| == STATE_WITNESS_SIZE
  {
    Keccak256(b)[0 := VmStatus(b[89] == 1, b[88])]
  }

  /** The first byte of a state hash tells how the program stands. */
  lemma StateHashTellsStatus(root: Digest, c: Cpu)
    ensures var status := StateHash(Encode(root, c))[0];
      && (status == UNFINISHED <==> !c.exited)
      && (status == VALID <==> c.exited && c.exitCode == 0)
      && (status == INVALID <==> c.exited && c.exitCode == 1)
      && (status == PANIC <==> c.exited && c.exitCode >= 2)
    ensures StateHash(Encode(root, c))[1..] == Keccak256(Encode(root, c))[1..]
  {
    hide Encode;
    EncodingSlices(root, c);
  }

  /** What a step with proof hands out. */
  datatype StepWitness = StepWitness(
    state: seq<Byte>,
    memProof: seq<Byte>,
    preimageKey: Option<Digest>,
    preimageValue: Option<seq<Byte>>,
    preimageOffset: Option<Word>)
}
