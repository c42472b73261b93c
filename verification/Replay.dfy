/** Replaying a step from its witness alone. `ReplayStep` sees the 226-byte state, two Merkle
    proofs and the preimage, never the memory; it checks the proofs against the root in the
    state and runs the same instruction function on the words in their leaves. */
module Replay {
  import opened Words
  import opened Results
  import opened MerkleTree
  import opened UpperTree
  import opened MemoryProofs
  import opened Alu
  import opened Cpu
  import opened Witness
  import opened Machine

  /** The second proof of a step: of the accessed address, or left over from an earlier step. */
  ghost function RecordedProof(contents: Flat, access: Option<Address>, before: seq<Byte>): seq<Byte> {
    match access
    case Some(a) => Flatten(MemoryProof(contents, a))
    case None => before
  }

  ghost predicate Fetches(m: Machine) {
    !m.cpu.exited && m.cpu.pc % 4 == 0 && ReadsPreimage(CountStep(m.cpu), WordAt(m.contents, m.cpu.pc))
  }

  ghost function SecondProof(m: Machine, before: seq<Byte>): seq<Byte> {
    if m.cpu.exited || m.cpu.pc % 4 != 0 then before
    else RecordedProof(m.contents, Access(CountStep(m.cpu), WordAt(m.contents, m.cpu.pc)), before)
  }

  /** The witness that a step with proofs emits. The preimage is left out when the offset has
      the value that the machine uses for "nothing read". */
  ghost function Emitted(host: Host, m: Machine, before: seq<Byte>): StepWitness {
    var bytes := Flatten(MemoryProof(m.contents, m.cpu.pc)) + SecondProof(m, before);
    var state := Encode(TreeRoot(m.contents), m.cpu);
    if Fetches(m) && m.cpu.preimageOffset != 0xFFFF_FFFF && Preimage(host, m).Ok? then
      StepWitness(state, bytes, Some(m.cpu.preimageKey), Some(Preimage(host, m).value), Some(m.cpu.preimageOffset))
    else StepWitness(state, bytes, None, None, None)
  }

  /** The preimage a witness claims for the key and offset in its state. */
  function ClaimedPreimage(w: StepWitness, c: Cpu): Result<seq<Byte>> {
    if w.preimageKey == Some(c.preimageKey) && w.preimageOffset == Some(c.preimageOffset) && w.preimageValue.Some? then
      Ok(w.preimageValue.value)
    else Err(OracleFailure)
  }

  /** Accepts a proof that folds to the root. */
  predicate Verifies(proof: seq<Digest>, address: Word, root: Digest) {
    |proof| == 28 && FoldProof(proof[0], proof[1..], address) == root
  }

  /** Executes an instruction on proven words and folds the stored leaf into the new root. */
  function ReplayInstruction(root: Digest, c: Cpu, insn: Word, proof: seq<Digest>, preimage: Result<seq<Byte>>)
    : Option<seq<Byte>>
    requires |proof| == 28
  {
    var access := Access(c, insn);
    if access.Some? && !Verifies(proof, access.value, root) then None
    else
      var word := if access.Some? then WordInLeaf(proof[0], access.value) else 0;
      match Instruction(c, insn, Env(word, preimage, Ok(())))
      case Err(_) => None
      case Ok(effect) =>
        var root' :=
          if access.Some? && effect.store.Some? then
            FoldProof(SpliceLeaf(proof[0], access.value, effect.store.value), proof[1..], access.value)
          else root;
        Some(Encode(root', effect.cpu))
  }

  /** The post-state witness computed from a step witness, or None when it is rejected. */
  function ReplayStep(w: StepWitness): Option<seq<Byte>> {
    if |w.state| != STATE_WITNESS_SIZE || |w.memProof| != 2 * PROOF_SIZE then None
    else
      var root, c := DecodeRoot(w.state), DecodeCpu(w.state);
      var fetch, data := Unflatten(w.memProof[..PROOF_SIZE]), Unflatten(w.memProof[PROOF_SIZE..]);
      if c.exited then Some(w.state)
      else if c.pc % 4 != 0 || !Verifies(fetch, c.pc, root) then None
      else ReplayInstruction(root, CountStep(c), WordInLeaf(fetch[0], c.pc), data, ClaimedPreimage(w, c))
  }

  /** An instruction uses the preimage only to read it, and the output side only to fail. */
  lemma OutsideIndependence(c: Cpu, insn: Word, env: Env, preimage: Result<seq<Byte>>)
    requires ReadsPreimage(c, insn) ==> preimage == env.preimage
    ensures Instruction(c, insn, env).Ok? ==>
      Instruction(c, insn, env) == Instruction(c, insn, Env(env.word, preimage, Ok(())))
  {
    hide AluResult, Jump, Branch, HiLo, WriteBack, WriteResult, PreimageRead, KeyWrite, Operand, EffectiveAddress;
  }

  /** An honest proof passes, yields the true word, and folds to the true new root. */
  lemma HonestInstruction(contents: Flat, c: Cpu, insn: Word, proof: seq<Digest>, preimage: Result<seq<Byte>>)
    requires |proof| == 28
    requires Access(c, insn).Some? ==> proof == MemoryProof(contents, Access(c, insn).value)
    ensures var r := Instruction(c, insn, Env(AccessedWord(contents, Access(c, insn)), preimage, Ok(())));
      ReplayInstruction(TreeRoot(contents), c, insn, proof, preimage)
      == if r.Err? then None
         else Some(Encode(TreeRoot(ApplyStore(contents, Access(c, insn), r.value.store)), r.value.cpu))
  {
    hide Instruction, TreeRoot, WordInLeaf, SpliceLeaf, FoldProof, MemoryProof, WordAt, WriteWord, Encode, Access;
    var access := Access(c, insn);
    if access.Some? {
      ProofVerifies(contents, access.value);
      LeafHoldsWord(contents, access.value);
      var r := Instruction(c, insn, Env(AccessedWord(contents, access), preimage, Ok(())));
      if r.Ok? && r.value.store.Some? {
        StatelessWrite(contents, access.value, r.value.store.value);
      }
    } else {
      NoAccessNoStore(c, insn, Env(AccessedWord(contents, access), preimage, Ok(())));
    }
  }

  lemma NoAccessNoStore(c: Cpu, insn: Word, env: Env)
    requires Access(c, insn).None?
    ensures Instruction(c, insn, env).Ok? ==> Instruction(c, insn, env).value.store.None?
  {
    if Instruction(c, insn, env).Ok? && Instruction(c, insn, env).value.store.Some? {
      StoreHasAccess(c, insn, env);
    }
  }

  /** A witness that decodes to the given state and whose two proofs are the given ones. */
  ghost predicate OpensTo(w: StepWitness, root: Digest, c: Cpu, fetch: seq<Digest>, data: seq<Byte>) {
    && |w.state| == STATE_WITNESS_SIZE && |w.memProof| == 2 * PROOF_SIZE
    && DecodeRoot(w.state) == root && DecodeCpu(w.state) == c
    && Unflatten(w.memProof[..PROOF_SIZE]) == fetch && w.memProof[PROOF_SIZE..] == data
  }

  lemma EmittedOpens(host: Host, m: Machine, before: seq<Byte>)
    requires |before| == PROOF_SIZE
    ensures OpensTo(Emitted(host, m, before), TreeRoot(m.contents), m.cpu, MemoryProof(m.contents, m.cpu.pc), SecondProof(m, before))
    ensures |SecondProof(m, before)| == PROOF_SIZE
  {
    hide Encode, Flatten, MemoryProof, Preimage, TreeRoot, Access, WordAt, ReadsPreimage;
    ProofLength(m.contents, m.cpu.pc);
    FlattenRoundTrip(MemoryProof(m.contents, m.cpu.pc));
    WitnessRoundTrip(TreeRoot(m.contents), m.cpu);
    if !(m.cpu.exited || m.cpu.pc % 4 != 0) {
      var access := Access(CountStep(m.cpu), WordAt(m.contents, m.cpu.pc));
      if access.Some? {
        ProofLength(m.contents, access.value);
      }
    }
    var fetch, data := Flatten(MemoryProof(m.contents, m.cpu.pc)), SecondProof(m, before);
    assert (fetch + data)[..PROOF_SIZE] == fetch && (fetch + data)[PROOF_SIZE..] == data;
  }

  /** Witness sufficiency: the emitted witness of a successful step replays, without the
      memory, to the witness of the new state - exactly unless the step reads a preimage at
      the reserved offset 2^32 - 1. */
  lemma WitnessSufficient(host: Host, m: Machine, before: seq<Byte>)
    requires |before| == PROOF_SIZE && MachineStep(host, m).Ok?
    ensures ReplayStep(Emitted(host, m, before)).Some? <==> !(Fetches(m) && m.cpu.preimageOffset == 0xFFFF_FFFF)
    ensures ReplayStep(Emitted(host, m, before)).Some? ==>
      var m' := MachineStep(host, m).value;
      ReplayStep(Emitted(host, m, before)) == Some(Encode(TreeRoot(m'.contents), m'.cpu))
  {
    hide Instruction, TreeRoot, WordInLeaf, FoldProof, MemoryProof, Encode, Access, ReplayInstruction, Flatten,
      WordAt, WriteWord, Preimage, WriteOutput, ReadsPreimage, DecodeCpu, DecodeRoot, SecondProof, Settle;
    EmittedOpens(host, m, before);
    if !m.cpu.exited {
      var w := Emitted(host, m, before);
      var c, insn := CountStep(m.cpu), WordAt(m.contents, m.cpu.pc);
      var data := Unflatten(w.memProof[PROOF_SIZE..]);
      ProofLength(m.contents, m.cpu.pc);
      ProofVerifies(m.contents, m.cpu.pc);
      LeafHoldsWord(m.contents, m.cpu.pc);
      SecondProofOpens(m, before);
      HonestInstruction(m.contents, c, insn, data, ClaimedPreimage(w, m.cpu));
      ClaimDecides(host, m, before);
    }
  }

  lemma SecondProofOpens(m: Machine, before: seq<Byte>)
    requires |before| == PROOF_SIZE && !m.cpu.exited && m.cpu.pc % 4 == 0
    ensures |SecondProof(m, before)| == PROOF_SIZE
    ensures var access := Access(CountStep(m.cpu), WordAt(m.contents, m.cpu.pc));
      access.Some? ==> Unflatten(SecondProof(m, before)) == MemoryProof(m.contents, access.value)
  {
    hide Access, WordAt, MemoryProof, Flatten;
    var access := Access(CountStep(m.cpu), WordAt(m.contents, m.cpu.pc));
    if access.Some? {
      ProofLength(m.contents, access.value);
      FlattenRoundTrip(MemoryProof(m.contents, access.value));
    }
  }

  /** The instruction runs on the claimed preimage as it ran on the real one, or the preimage
      is missing from the witness and the instruction needs it. */
  lemma ClaimDecides(host: Host, m: Machine, before: seq<Byte>)
    requires |before| == PROOF_SIZE && MachineStep(host, m).Ok? && !m.cpu.exited && m.cpu.pc % 4 == 0
    ensures var insn, c := WordAt(m.contents, m.cpu.pc), CountStep(m.cpu);
      var word := AccessedWord(m.contents, Access(c, insn));
      var r := Instruction(c, insn, Env(word, ClaimedPreimage(Emitted(host, m, before), m.cpu), Ok(())));
      var m' := MachineStep(host, m).value;
      if Fetches(m) && m.cpu.preimageOffset == 0xFFFF_FFFF then r.Err?
      else r.Ok? && m'.cpu == r.value.cpu && m'.contents == ApplyStore(m.contents, Access(c, insn), r.value.store)
  {
    hide Instruction, TreeRoot, MemoryProof, Encode, Access, Flatten, WordAt, WriteWord, Preimage, WriteOutput,
      ReadsPreimage, SecondProof;
    var counted := m.(cpu := CountStep(m.cpu));
    var c, insn := counted.cpu, WordAt(m.contents, m.cpu.pc);
    SamePreimage(host, m);
    var claimed := ClaimedPreimage(Emitted(host, m, before), m.cpu);
    var env := Env(AccessedWord(m.contents, Access(c, insn)), Preimage(host, m),
                   Succeeded(WriteOutput(host, c, m.contents, m.streams)));
    if Fetches(m) {
      FetchNeedsPreimage(c, insn, env);
      FetchNeedsPreimage(c, insn, env.(preimage := claimed, output := Ok(())));
    }
    if !(Fetches(m) && m.cpu.preimageOffset == 0xFFFF_FFFF) {
      OutsideIndependence(c, insn, env, claimed);
    }
  }

  lemma SamePreimage(host: Host, m: Machine)
    ensures Preimage(host, m.(cpu := CountStep(m.cpu))) == Preimage(host, m)
  {
  }

  lemma FetchNeedsPreimage(c: Cpu, insn: Word, env: Env)
    requires ReadsPreimage(c, insn)
    ensures Instruction(c, insn, env).Ok? ==> env.preimage.Ok?
  {
    hide AluResult;
  }

  /** A machine about to read the last byte of a preimage of 2^32 - 8 zero bytes: the offset in
      its length-prefixed form is the reserved one. */
  ghost function ReadAtReservedOffset(): Machine {
    var registers := seq(32, _ => 0)[2 := READ][4 := 5][6 := 4];
    var blob := LongBytesOf(0xFFFF_FFF8) + Zeros(0xFFFF_FFF8);
    Machine(Cpu(ZERO_LEAF, 0xFFFF_FFFF, 0, 4, 0, 0, 0, 0, false, 0, registers),
            WriteWord(ZERO_MEMORY, 0, 0x0C), Streams([], [], [], []), ZERO_LEAF, blob)
  }

  lemma SyscallWordAtZero()
    ensures WordAt(WriteWord(ZERO_MEMORY, 0, 0x0C), 0) == 0x0C
  {
    WordRoundTrip(0x0C);
    assert WriteWord(ZERO_MEMORY, 0, 0x0C)[0..4] == BytesOf(0x0C);
  }

  lemma ReservedReadSucceeds(host: Host)
    ensures var m := ReadAtReservedOffset();
      MachineStep(host, m).Ok? && Fetches(m) && m.cpu.preimageOffset == 0xFFFF_FFFF
  {
    hide WriteWord, WordAt, LongBytesOf, WriteOutput, ApplyStore, Instruction, Syscall, Access;
    var m := ReadAtReservedOffset();
    var c := CountStep(m.cpu);
    var env := Env(AccessedWord(m.contents, Access(c, 0x0C)), Preimage(host, m.(cpu := c)),
                   Succeeded(WriteOutput(host, c, m.contents, m.streams)));
    SyscallWordAtZero();
    SyscallWord(c, env);
    ReadCallSucceeds(c, env);
  }

  lemma SyscallWord(c: Cpu, env: Env)
    ensures Instruction(c, 0x0C, env) == Syscall(c, env)
  {
    hide Syscall, Operand, SignExtend;
  }

  lemma ReadCallSucceeds(c: Cpu, env: Env)
    requires FetchesPreimage(c) && env.preimage.Ok? && c.preimageOffset <= |env.preimage.value|
    ensures Syscall(c, env).Ok?
  {
    hide PreimageWord, PreimageReadCount, Return;
  }

  /** The exception to witness sufficiency occurs: this step succeeds, and its witness is not
      enough to replay it. */
  lemma ReservedReadUnreplayable(host: Host, before: seq<Byte>)
    requires |before| == PROOF_SIZE
    ensures MachineStep(host, ReadAtReservedOffset()).Ok?
    ensures ReplayStep(Emitted(host, ReadAtReservedOffset(), before)).None?
  {
    hide MachineStep, ReplayStep, Emitted, Fetches, ReadAtReservedOffset, Encode, TreeRoot;
    ReservedReadSucceeds(host);
    WitnessSufficient(host, ReadAtReservedOffset(), before);
  }
}
