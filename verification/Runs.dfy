/** What holds over whole runs of the machine: control flow with delay slots, register zero,
    the step counter, exiting, and the heap. */
module Runs {
  import opened Words
  import opened Results
  import opened UpperTree
  import opened Alu
  import opened Cpu
  import opened Machine

  /** The next instruction follows the current one. */
  predicate Sequential(c: Cpu) { c.nextPc == Add(c.pc, 4) }

  /** Fields that only syscalls touch. */
  predicate SameSystem(c: Cpu, c': Cpu) {
    && c'.preimageKey == c.preimageKey && c'.preimageOffset == c.preimageOffset && c'.heap == c.heap
    && c'.exited == c.exited && c'.exitCode == c.exitCode && c'.step == c.step
  }

  /** Moving on: the program counter takes the delay slot, and a pending transfer is followed
      by a sequential instruction. */
  predicate MovesOn(c: Cpu, c': Cpu) {
    c'.pc == c.nextPc && (!Sequential(c) ==> Sequential(c'))
  }

  lemma PlainInstruction(c: Cpu, insn: Word, env: Env)
    requires Instruction(c, insn, env).Ok? && !IsSyscall(insn)
    ensures var c' := Instruction(c, insn, env).value.cpu;
      SameSystem(c, c') && MovesOn(c, c') && (c.registers[0] == 0 ==> c'.registers[0] == 0)
  {
    hide AluResult, SignExtend, Shl, BranchTaken, TruncDiv, TruncRem, Widen, Operand, EffectiveAddress, Add;
  }

  /** A syscall result was put into the registers and the machine moved on. */
  predicate Returned(c: Cpu, c': Cpu) {
    && c'.pc == c.nextPc && c'.nextPc == Add(c.nextPc, 4)
    && c'.step == c.step && c'.exited == c.exited && c'.exitCode == c.exitCode
    && c'.registers[0] == c.registers[0]
  }

  lemma ReadReturns(c: Cpu, env: Env)
    ensures ReadCall(c, env).Ok? ==> Returned(c, ReadCall(c, env).value.cpu)
  {
    hide Add, PreimageReadCount, PreimageWord;
  }

  lemma WriteReturns(c: Cpu, env: Env)
    ensures WriteCall(c, env).Ok? ==> Returned(c, WriteCall(c, env).value.cpu)
  {
    hide Add, KeyBytes, ShiftKey, KeyWriteCount;
  }

  lemma OtherCallsReturn(c: Cpu, v0: Word)
    ensures Returned(c, Mmap(c)) && Returned(c, Fcntl(c)) && Returned(c, Return(c, v0, 0))
  {
    hide Add, RoundToPage;
  }

  /** A syscall that does not exit returns to the next instruction. */
  lemma SyscallMoves(c: Cpu, env: Env)
    requires Syscall(c, env).Ok?
    ensures var c' := Syscall(c, env).value.cpu;
      if c.registers[2] == EXIT_GROUP then c' == c.(exited := true, exitCode := c.registers[4] % 256)
      else Returned(c, c')
  {
    hide Returned, Return, Mmap, Fcntl, ReadCall, WriteCall;
    ReadReturns(c, env);
    WriteReturns(c, env);
    OtherCallsReturn(c, 0x4000_0000);
    OtherCallsReturn(c, 1);
    OtherCallsReturn(c, 0);
  }

  lemma SyscallInstruction(c: Cpu, insn: Word, env: Env)
    requires IsSyscall(insn)
    ensures Instruction(c, insn, env) == Syscall(c, env)
  {
    hide Syscall;
  }

  /** The instruction a machine is about to execute. */
  ghost function Current(m: Machine): Word
    requires m.cpu.pc % 4 == 0
  {
    WordAt(m.contents, m.cpu.pc)
  }

  ghost predicate AtSyscall(m: Machine) { !m.cpu.exited && m.cpu.pc % 4 == 0 && IsSyscall(Current(m)) }

  ghost predicate AtExit(m: Machine) { AtSyscall(m) && m.cpu.registers[2] == EXIT_GROUP }

  /** One successful step of a running machine. */
  lemma StepControl(host: Host, m: Machine)
    requires MachineStep(host, m).Ok? && !m.cpu.exited
    ensures var m' := MachineStep(host, m).value;
      && m'.cpu.step == (m.cpu.step + 1) % LONG_LIMIT
      && (m.cpu.registers[0] == 0 ==> m'.cpu.registers[0] == 0)
      && (m'.cpu.exited <==> AtExit(m))
      && (!AtExit(m) ==> MovesOn(m.cpu, m'.cpu))
  {
    hide Instruction, WriteOutput, Preimage, AccessedWord, ApplyStore, Access, Syscall, WordAt;
    var c, insn := CountStep(m.cpu), Current(m);
    var counted := m.(cpu := c);
    var env := Env(AccessedWord(m.contents, Access(c, insn)), Preimage(host, counted),
                   Succeeded(WriteOutput(host, c, m.contents, m.streams)));
    if IsSyscall(insn) {
      SyscallInstruction(c, insn, env);
      SyscallMoves(c, env);
    } else {
      PlainInstruction(c, insn, env);
    }
  }

  /** An exited machine is a fixed point of every later step. */
  lemma {:induction false} ExitedStays(host: Host, m: Machine, n: nat)
    requires m.cpu.exited
    ensures MachineRun(host, m, n) == Ok(m)
    decreases n
  {
    if n > 0 {
      ExitedStays(host, m, n - 1);
    }
  }

  /** A run of `n + 1` steps is a run of `n` steps and one more. */
  lemma {:induction false} RunAppend(host: Host, m: Machine, n: nat)
    ensures MachineRun(host, m, n + 1) ==
      (match MachineRun(host, m, n) case Ok(last) => MachineStep(host, last) case Err(e) => Err(e))
    decreases n
  {
    hide MachineStep;
    if n > 0 && MachineStep(host, m).Ok? {
      RunAppend(host, MachineStep(host, m).value, n - 1);
    } else if n == 0 && MachineStep(host, m).Ok? {
      assert MachineRun(host, MachineStep(host, m).value, 0) == Ok(MachineStep(host, m).value);
    }
  }

  /** Over any run: register zero stays zero, and every step of a machine that has not exited
      counts exactly one. */
  lemma {:induction false} RunCounters(host: Host, m: Machine, n: nat)
    requires MachineRun(host, m, n).Ok? && m.cpu.registers[0] == 0
    ensures var last := MachineRun(host, m, n).value;
      && last.cpu.registers[0] == 0
      && (!last.cpu.exited ==> !m.cpu.exited && last.cpu.step == (m.cpu.step + n) % LONG_LIMIT)
    decreases n
  {
    hide MachineStep, MovesOn, AtExit;
    if m.cpu.exited {
      ExitedStays(host, m, n);
    } else if n > 0 {
      StepControl(host, m);
      CountOn(m.cpu.step, n);
      RunCounters(host, MachineStep(host, m).value, n - 1);
    }
  }

  lemma CountOn(step: Long, n: nat)
    requires n > 0
    ensures ((step + 1) % LONG_LIMIT + (n - 1)) % LONG_LIMIT == (step + n) % LONG_LIMIT
  {
  }

  /** Delay slots over any run: after a non-sequential transfer has been set up, the next
      instruction is the one in the slot, and it sets up no transfer of its own. */
  lemma RunDelaySlots(host: Host, m: Machine, i: nat)
    requires MachineRun(host, m, i + 1).Ok?
    ensures MachineRun(host, m, i).Ok?
    ensures var (here, next) := (MachineRun(host, m, i).value, MachineRun(host, m, i + 1).value);
      !next.cpu.exited ==> next.cpu.pc == here.cpu.nextPc && (Sequential(here.cpu) || Sequential(next.cpu))
  {
    hide MachineStep, MachineRun, Add;
    RunAppend(host, m, i);
    var here := MachineRun(host, m, i).value;
    if here.cpu.exited {
      ExitedStep(host, here);
    } else {
      StepControl(host, here);
    }
  }

  lemma ExitedStep(host: Host, m: Machine)
    requires m.cpu.exited
    ensures MachineStep(host, m) == Ok(m)
  {
  }

  predicate IsRegisterJump(insn: Word) { Opcode(insn) == 0 && 8 <= Funct(insn) <= 9 }

  predicate Transfers(insn: Word) { IsJump(insn) || IsBranch(insn) || IsRegisterJump(insn) }

  /** Where a jump or branch leads: for a branch not taken, past the delay slot. */
  function Target(c: Cpu, insn: Word): Word
    requires Transfers(insn)
  {
    if IsRegisterJump(insn) then c.registers[RsField(insn)]
    else if IsJump(insn) then c.nextPc / 0x1000_0000 * 0x1000_0000 + TargetField(insn) * 4
    else if BranchTaken(Opcode(insn), RtField(insn), c.registers[RsField(insn)], c.registers[RtField(insn)]) then
      Add(Add(c.pc, 4), Shl(SignExtend(ImmField(insn), 16), 2))
    else Add(c.nextPc, 4)
  }

  /** A jump or branch succeeds only outside a delay slot, and its target is executed right
      after exactly one more instruction. */
  lemma JumpAfterOneSlot(host: Host, m: Machine)
    requires !m.cpu.exited && m.cpu.pc % 4 == 0 && Transfers(Current(m))
    requires MachineRun(host, m, 2).Ok? && !MachineRun(host, m, 2).value.cpu.exited
    ensures Sequential(m.cpu)
    ensures var (slot, after) := (MachineRun(host, m, 1).value, MachineRun(host, m, 2).value);
      slot.cpu.pc == Add(m.cpu.pc, 4) && after.cpu.pc == Target(m.cpu, Current(m))
  {
    hide MachineStep, MachineRun, Add;
    RunAppend(host, m, 1);
    RunAppend(host, m, 0);
    RunZero(host, m);
    TransferNeedsSequential(host, m);
    RunDelaySlots(host, m, 0);
    RunDelaySlots(host, m, 1);
    StepControl(host, m);
  }

  lemma RunZero(host: Host, m: Machine)
    ensures MachineRun(host, m, 0) == Ok(m)
  {
  }

  lemma TransferNeedsSequential(host: Host, m: Machine)
    requires !m.cpu.exited && m.cpu.pc % 4 == 0 && Transfers(Current(m))
    requires MachineStep(host, m).Ok?
    ensures Sequential(m.cpu) && MachineStep(host, m).value.cpu.nextPc == Target(m.cpu, Current(m))
  {
    hide Compute, WriteOutput, Preimage, Access, AccessedWord, ApplyStore, SignExtend, BranchTaken, WordAt, Add,
      IsRegisterJump;
    var c, insn := CountStep(m.cpu), Current(m);
    if IsRegisterJump(insn) {
      RegisterJump(c, insn, Env(AccessedWord(m.contents, Access(c, insn)), Preimage(host, m.(cpu := c)),
                                Succeeded(WriteOutput(host, c, m.contents, m.streams))));
    }
  }

  /** `jr` and `jalr` jump to the register, outside delay slots only. */
  lemma RegisterJump(c: Cpu, insn: Word, env: Env)
    requires IsRegisterJump(insn) && Instruction(c, insn, env).Ok?
    ensures c.nextPc == Add(c.pc, 4) && Instruction(c, insn, env).value.cpu.nextPc == c.registers[RsField(insn)]
  {
    hide Add, Operand, Syscall, HiLo, SignExtend, Shl, Shr, LoadStore, Special2;
  }
}
