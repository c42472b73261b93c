/** Replay as a referee: whatever proofs a witness carries, an accepted replay is the true
    step, unless two of the strings hashed on the way collide; and both directions over whole
    runs of witnesses. */
module ReplayRuns {
  import opened Words
  import opened Results
  import opened MerkleTree
  import opened UpperTree
  import opened MemoryProofs
  import opened Cpu
  import opened Witness
  import opened Machine
  import opened Replay

  /** The strings hashed by a replay of `w` and by the honest proofs of the same addresses. */
  function ReplayInputs(w: StepWitness, c: Cpu, contents: Flat): set<seq<Byte>>
    requires |w.memProof| == 2 * PROOF_SIZE
  {
    var fetch, data := Unflatten(w.memProof[..PROOF_SIZE]), Unflatten(w.memProof[PROOF_SIZE..]);
    ProofLength(contents, c.pc);
    BothInputs(fetch, contents, c.pc)
    + (if c.pc % 4 != 0 then {}
       else match Access(CountStep(c), WordAt(contents, c.pc))
         case None => {}
         case Some(a) => BothInputs(data, contents, a))
  }

  function BothInputs(proof: seq<Digest>, contents: Flat, address: Word): set<seq<Byte>>
    requires proof != []
  {
    ProofLength(contents, address);
    ProofInputs(proof, address) + ProofInputs(MemoryProof(contents, address), address)
  }

  /** A proof that verifies is the honest one. */
  lemma VerifiedIsHonest(proof: seq<Digest>, contents: Flat, address: Word, inputs: set<seq<Byte>>)
    requires Verifies(proof, address, TreeRoot(contents))
    requires BothInputs(proof, contents, address) <= inputs && CollisionFree(inputs)
    ensures proof == MemoryProof(contents, address)
  {
    hide TreeRoot, MemoryProof, FoldProof, ProofInputs;
    ProofLength(contents, address);
    ProofBinding(contents, address, proof);
  }

  /** Soundness: if a replay of any witness for this state is accepted, and the preimage it
      claims is the right one, then the step succeeds and the result is its true post-state. */
  lemma ReplaySound(w: StepWitness, c: Cpu, contents: Flat, preimage: Result<seq<Byte>>)
    requires w.state == Encode(TreeRoot(contents), c) && ReplayStep(w).Some?
    requires ClaimedPreimage(w, c).Ok? ==> preimage == ClaimedPreimage(w, c)
    requires |w.memProof| == 2 * PROOF_SIZE && CollisionFree(ReplayInputs(w, c, contents))
    ensures var next := StepOn(c, contents, preimage, Ok(()));
      next.Ok? && ReplayStep(w) == Some(Encode(TreeRoot(next.value.1), next.value.0))
  {
    hide Instruction, TreeRoot, WordInLeaf, FoldProof, MemoryProof, Encode, Access, ReplayInstruction, WordAt,
      WriteWord, ReadsPreimage, DecodeCpu, DecodeRoot, ClaimedPreimage, Verifies, BothInputs, CollisionFree;
    WitnessRoundTrip(TreeRoot(contents), c);
    if !c.exited {
      var inputs := ReplayInputs(w, c, contents);
      var fetch, data := Unflatten(w.memProof[..PROOF_SIZE]), Unflatten(w.memProof[PROOF_SIZE..]);
      VerifiedIsHonest(fetch, contents, c.pc, inputs);
      LeafHoldsWord(contents, c.pc);
      AcceptedInstruction(contents, CountStep(c), WordAt(contents, c.pc), data, ClaimedPreimage(w, c), preimage, inputs);
    }
  }

  /** The same for the instruction once it is fetched. */
  lemma AcceptedInstruction(contents: Flat, c: Cpu, insn: Word, data: seq<Digest>,
                            claimed: Result<seq<Byte>>, preimage: Result<seq<Byte>>, inputs: set<seq<Byte>>)
    requires |data| == 28 && ReplayInstruction(TreeRoot(contents), c, insn, data, claimed).Some?
    requires claimed.Ok? ==> preimage == claimed
    requires Access(c, insn).Some? ==> BothInputs(data, contents, Access(c, insn).value) <= inputs
    requires CollisionFree(inputs)
    ensures var r := Instruction(c, insn, Env(AccessedWord(contents, Access(c, insn)), preimage, Ok(())));
      && r.Ok?
      && ReplayInstruction(TreeRoot(contents), c, insn, data, claimed)
        == Some(Encode(TreeRoot(ApplyStore(contents, Access(c, insn), r.value.store)), r.value.cpu))
  {
    hide Instruction, TreeRoot, WordInLeaf, FoldProof, MemoryProof, Encode, Access, WordAt, WriteWord, ReadsPreimage,
      BothInputs, Verifies, CollisionFree;
    var access := Access(c, insn);
    if access.Some? {
      VerifiedIsHonest(data, contents, access.value, inputs);
    }
    HonestInstruction(contents, c, insn, data, claimed);
    var env := Env(AccessedWord(contents, access), claimed, Ok(()));
    if ReadsPreimage(c, insn) {
      FetchNeedsPreimage(c, insn, env);
    }
    OutsideIndependence(c, insn, env, preimage);
  }

  /** Witnesses that link up: each starts in the state the previous one replays to. */
  predicate Chain(ws: seq<StepWitness>, start: seq<Byte>, end: seq<Byte>)
    decreases ws
  {
    if ws == [] then start == end
    else ws[0].state == start && ReplayStep(ws[0]).Some? && Chain(ws[1..], ReplayStep(ws[0]).value, end)
  }

  /** The witnesses emitted along a run. */
  ghost function EmittedRun(host: Host, m: Machine, before: seq<Byte>, n: nat): seq<StepWitness>
    decreases n
  {
    if n == 0 || MachineStep(host, m).Err? then []
    else [Emitted(host, m, before)] + EmittedRun(host, MachineStep(host, m).value, SecondProof(m, before), n - 1)
  }

  /** No step of the run reads a preimage at the reserved offset. */
  ghost predicate OffsetsOrdinary(host: Host, m: Machine, n: nat)
    decreases n
  {
    n > 0 && MachineStep(host, m).Ok? ==>
      !(Fetches(m) && m.cpu.preimageOffset == 0xFFFF_FFFF) && OffsetsOrdinary(host, MachineStep(host, m).value, n - 1)
  }

  function StateWitness(m: Machine): seq<Byte> { Encode(TreeRoot(m.contents), m.cpu) }

  /** Over whole runs: the emitted witnesses alone lead from the first state to the last. */
  lemma {:induction false} RunReplays(host: Host, m: Machine, before: seq<Byte>, n: nat)
    requires |before| == PROOF_SIZE && MachineRun(host, m, n).Ok? && OffsetsOrdinary(host, m, n)
    ensures |EmittedRun(host, m, before, n)| == n
    ensures Chain(EmittedRun(host, m, before, n), StateWitness(m), StateWitness(MachineRun(host, m, n).value))
    decreases n
  {
    hide MachineStep, Encode, TreeRoot, ReplayStep, Fetches, SecondProof;
    if n > 0 {
      var m' := MachineStep(host, m).value;
      WitnessSufficient(host, m, before);
      EmittedState(host, m, before);
      RunReplays(host, m', SecondProof(m, before), n - 1);
      var ws := EmittedRun(host, m, before, n);
      assert ws[0] == Emitted(host, m, before) && ws[1..] == EmittedRun(host, m', SecondProof(m, before), n - 1);
    }
  }

  lemma EmittedState(host: Host, m: Machine, before: seq<Byte>)
    requires |before| == PROOF_SIZE
    ensures Emitted(host, m, before).state == StateWitness(m) && |SecondProof(m, before)| == PROOF_SIZE
  {
    EmittedOpens(host, m, before);
  }

  /** The registers and memory after `n` steps, reading preimages from `truth`. */
  function RunOn(c: Cpu, contents: Flat, truth: Digest -> seq<Byte>, n: nat): Result<(Cpu, Flat)>
    decreases n
  {
    if n == 0 then Ok((c, contents))
    else
      var next :- StepOn(c, contents, Ok(truth(c.preimageKey)), Ok(()));
      RunOn(next.0, next.1, truth, n - 1)
  }

  /** Every preimage claimed in the chain is the true one, and nothing hashed collides. */
  ghost predicate HonestClaims(ws: seq<StepWitness>, c: Cpu, contents: Flat, truth: Digest -> seq<Byte>)
    decreases ws
  {
    ws != [] ==>
      && |ws[0].memProof| == 2 * PROOF_SIZE
      && (ClaimedPreimage(ws[0], c).Ok? ==> ClaimedPreimage(ws[0], c) == Ok(truth(c.preimageKey)))
      && CollisionFree(ReplayInputs(ws[0], c, contents))
      && var next := StepOn(c, contents, Ok(truth(c.preimageKey)), Ok(()));
         (next.Ok? ==> HonestClaims(ws[1..], next.value.0, next.value.1, truth))
  }

  /** Any accepted chain of witnesses ends in the true state of the run. */
  lemma {:induction false} ChainSound(ws: seq<StepWitness>, c: Cpu, contents: Flat, end: seq<Byte>, truth: Digest -> seq<Byte>)
    requires Chain(ws, Encode(TreeRoot(contents), c), end) && HonestClaims(ws, c, contents, truth)
    ensures var last := RunOn(c, contents, truth, |ws|);
      last.Ok? && end == Encode(TreeRoot(last.value.1), last.value.0)
    decreases ws
  {
    hide StepOn, Encode, TreeRoot, ReplayStep, ClaimedPreimage, ReplayInputs, CollisionFree;
    if ws != [] {
      ReplaySound(ws[0], c, contents, Ok(truth(c.preimageKey)));
      var next := StepOn(c, contents, Ok(truth(c.preimageKey)), Ok(())).value;
      ChainSound(ws[1..], next.0, next.1, end, truth);
    }
  }
}
