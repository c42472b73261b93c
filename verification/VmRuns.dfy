/** Whole runs of the instrumented machine: proof generation does not influence them, and the
    witnesses they hand out replay from the first state to the last. */
module VmRuns {
  import opened Words
  import opened Results
  import opened UpperTree
  import opened MemoryProofs
  import opened PagedMemory
  import opened Cpu
  import opened Witness
  import opened Machine
  import opened Replay
  import opened ReplayRuns
  import opened Vm

  /** Everything a machine may touch. */
  ghost function Footprint(vm: InstrumentedState): set<object>
    reads vm.state.memory
  {
    {vm, vm.state, vm.state.registers, vm.state.memory} + vm.state.memory.Repr
  }

  /** Two machines in the same state, one stepping with proof and one without: both steps
      succeed and the machines stay the same, or both fail with the same error, which is never
      that of a second address. */
  method StepBothWays(proving: InstrumentedState, plain: InstrumentedState)
    returns (withProof: Result<Option<StepWitness>>, without: Result<Option<StepWitness>>)
    requires proving.Valid() && plain.Valid() && Footprint(proving) !! Footprint(plain)
    requires proving.host == plain.host && proving.Abs() == plain.Abs()
    modifies Footprint(proving), Footprint(plain)
    ensures proving.Valid() && plain.Valid()
    ensures SameOutcome(withProof, without) && SameOutcome(withProof, MachineStep(plain.host, old(plain.Abs())))
    ensures withProof.Err? ==> withProof.error != DifferentMemoryAccess
    ensures withProof.Ok? ==> proving.Abs() == plain.Abs() == MachineStep(plain.host, old(plain.Abs())).value
  {
    hide MachineStep, SecondProof, Emitted;
    withProof := proving.Step(true);
    without := plain.Step(false);
  }

  /** Any sequence of steps, each with or without proof: the machine runs the same. */
  method RunModes(vm: InstrumentedState, modes: seq<bool>) returns (r: Result<()>)
    requires vm.Valid()
    modifies Footprint(vm)
    ensures vm.Valid()
    ensures SameOutcome(r, MachineRun(vm.host, old(vm.Abs()), |modes|))
    ensures r.Ok? ==> vm.Abs() == MachineRun(vm.host, old(vm.Abs()), |modes|).value
  {
    hide MachineStep, SecondProof, Emitted, NodesCorrect, InstrumentedState.Abs,
      Memory.PagesMatch, Memory.PagesApart, Memory.SlotsMatch, Memory.NodesMatch;
    ghost var before := Footprint(vm);
    for i := 0 to |modes|
      invariant vm.Valid() && fresh(Footprint(vm) - before)
      invariant MachineRun(vm.host, old(vm.Abs()), |modes|) == MachineRun(vm.host, vm.Abs(), |modes| - i)
    {
      var _ :- vm.Step(modes[i]);
    }
    r := Ok(());
  }

  /** A run that collects the witness of every step: they are a chain from the state before the
      run to the state after it, unless a preimage is read at the reserved offset. */
  method RunProving(vm: InstrumentedState, n: nat) returns (r: Result<seq<StepWitness>>)
    requires vm.Valid()
    modifies Footprint(vm)
    ensures vm.Valid()
    ensures SameOutcome(r, MachineRun(vm.host, old(vm.Abs()), n))
    ensures r.Ok? ==> vm.Abs() == MachineRun(vm.host, old(vm.Abs()), n).value && |r.value| == n
    ensures r.Ok? && OffsetsOrdinary(vm.host, old(vm.Abs()), n) ==>
      Chain(r.value, StateWitness(old(vm.Abs())), StateWitness(vm.Abs()))
  {
    hide MachineStep, SecondProof, Emitted, Encode, OffsetsOrdinary, Chain, TreeRoot, NodesCorrect,
      InstrumentedState.Abs, Memory.PagesMatch, Memory.PagesApart, Memory.SlotsMatch, Memory.NodesMatch;
    ghost var footprint, m0, proof0 := Footprint(vm), vm.Abs(), vm.memProof;
    var witnesses := [];
    for i := 0 to n
      invariant vm.Valid() && fresh(Footprint(vm) - footprint) && |witnesses| == i
      invariant MachineRun(vm.host, m0, n) == MachineRun(vm.host, vm.Abs(), n - i)
      invariant EmittedRun(vm.host, m0, proof0, n) == witnesses + EmittedRun(vm.host, vm.Abs(), vm.memProof, n - i)
    {
      var step :- vm.Step(true);
      witnesses := witnesses + [step.value];
    }
    assert witnesses == EmittedRun(vm.host, m0, proof0, n);
    if OffsetsOrdinary(vm.host, m0, n) {
      RunReplays(vm.host, m0, proof0, n);
    }
    r := Ok(witnesses);
  }
}
