/** The HI/LO pair: products and quotients are left there, moved out and in unchanged, and kept
    by everything else. */
module HiLoLaws {
  import opened Words
  import opened Results
  import opened UpperTree
  import opened Alu
  import opened Cpu
  import opened Machine
  import opened ArithmeticLaws
  import opened Assembly
  import opened Runs
  import opened RegisterLaws

  /** The step sets the pair, clears its destination register and moves on. */
  ghost predicate SetsPair(host: Host, m: Machine, rd: Reg, hi: Word, lo: Word) {
    MachineStep(host, m) == Ok(m.(cpu := Put(Forward(m.cpu).(hi := hi, lo := lo), rd, 0)))
  }

  lemma HiLoEffect(c: Cpu, insn: Word, env: Env)
    requires Opcode(insn) == 0 && (0x10 <= Funct(insn) <= 0x13 || 0x18 <= Funct(insn) <= 0x1B)
    ensures var r := HiLoUpdate(c, Funct(insn), c.registers[RsField(insn)], c.registers[RtField(insn)]);
      Instruction(c, insn, env) ==
        if r.Err? then Err(r.error) else Ok(Effect(Advance(Put(r.value.0, RdField(insn), r.value.1)), None))
  {
    hide HiLoUpdate, Advance, Branch, Jump, Syscall, EffectiveAddress, SignExtend, Shl, Shr;
  }

  /** The step of an instruction of this group, given what it does to the pair. */
  lemma HiLoStep(host: Host, m: Machine, rs: Reg, rt: Reg, rd: Reg, shamt: Reg, fun: Code)
    requires At(m, RType(0, rs, rt, rd, shamt, fun)) && (0x10 <= fun <= 0x13 || 0x18 <= fun <= 0x1B)
    ensures var r := HiLoUpdate(CountStep(m.cpu), fun, m.cpu.registers[rs], m.cpu.registers[rt]);
      MachineStep(host, m) == if r.Err? then Err(r.error) else Ok(m.(cpu := Advance(Put(r.value.0, rd, r.value.1))))
  {
    hide HiLoUpdate, At, RType, MachineStep, Instruction, Outside, Advance;
    var insn := RType(0, rs, rt, rd, shamt, fun);
    RFields(0, rs, rt, rd, shamt, fun);
    RegisterStep(host, m, insn);
    HiLoEffect(CountStep(m.cpu), insn, Outside(host, m, insn));
  }

  /** `mfhi` and `mflo` deliver HI and LO; `mthi` and `mtlo` set one and keep the other. */
  lemma MovePairLaw(host: Host, m: Machine, rs: Reg, rt: Reg, rd: Reg, shamt: Reg)
    ensures At(m, RType(0, rs, rt, rd, shamt, 0x10)) ==> Puts(host, m, rd, m.cpu.hi)
    ensures At(m, RType(0, rs, rt, rd, shamt, 0x12)) ==> Puts(host, m, rd, m.cpu.lo)
    ensures At(m, RType(0, rs, rt, rd, shamt, 0x11)) ==> SetsPair(host, m, rd, m.cpu.registers[rs], m.cpu.lo)
    ensures At(m, RType(0, rs, rt, rd, shamt, 0x13)) ==> SetsPair(host, m, rd, m.cpu.hi, m.cpu.registers[rs])
  {
    hide At, RType, MachineStep;
    forall fun: Code | At(m, RType(0, rs, rt, rd, shamt, fun)) && 0x10 <= fun <= 0x13
      ensures var r := HiLoUpdate(CountStep(m.cpu), fun, m.cpu.registers[rs], m.cpu.registers[rt]);
        MachineStep(host, m) == if r.Err? then Err(r.error) else Ok(m.(cpu := Advance(Put(r.value.0, rd, r.value.1))))
    {
      HiLoStep(host, m, rs, rt, rd, shamt, fun);
    }
  }

  /** HI and LO after an instruction on two numbers: the signed or unsigned product, or the
      remainder and quotient of signed or unsigned division. */
  ghost predicate PairFor(fun: Code, x: Word, y: Word, hi: Word, lo: Word) {
    match fun
    case 0x18 => SignedPair(hi, lo) == Signed(x) * Signed(y)
    case 0x19 => UnsignedPair(hi, lo) == x * y
    case 0x1A => Truncates(Signed(x), Signed(y), Signed(lo), Signed(hi))
    case _ => x == lo * y + hi && hi < y
  }

  /** Division by zero, and the one signed quotient that does not fit. */
  predicate Undefined(fun: Code, x: Word, y: Word) {
    fun >= 0x1A && (y == 0 || (fun == 0x1A && x == 0x8000_0000 && y == 0xFFFF_FFFF))
  }

  lemma UpdatePair(c: Cpu, fun: Code, x: Word, y: Word)
    requires 0x18 <= fun <= 0x1B
    ensures var r := HiLoUpdate(c, fun, x, y);
      && (Undefined(fun, x, y) ==> r == Err(Panic))
      && (!Undefined(fun, x, y) ==>
        && r.Ok? && PairFor(fun, x, y, r.value.0.hi, r.value.0.lo) && r.value.1 == 0
        && r.value.0 == c.(hi := r.value.0.hi, lo := r.value.0.lo))
  {
    hide SignedPair, UnsignedPair, Truncates, TruncDiv, TruncRem, Widen;
    MultExact(c, x, y);
    DivExact(c, x, y);
    DivuExact(c, x, y);
  }

  /** `mult`, `multu`, `div` and `divu`: they panic exactly on a zero divisor and on -2^31 / -1,
      and otherwise leave the exact pair. */
  lemma ArithmeticPairLaw(host: Host, m: Machine, rs: Reg, rt: Reg, rd: Reg, shamt: Reg, fun: Code)
    requires At(m, RType(0, rs, rt, rd, shamt, fun)) && 0x18 <= fun <= 0x1B
    ensures var x, y, r := m.cpu.registers[rs], m.cpu.registers[rt], MachineStep(host, m);
      && (Undefined(fun, x, y) ==> r == Err(Panic))
      && (!Undefined(fun, x, y) ==>
        && r.Ok? && PairFor(fun, x, y, r.value.cpu.hi, r.value.cpu.lo)
        && SetsPair(host, m, rd, r.value.cpu.hi, r.value.cpu.lo))
  {
    hide At, RType, MachineStep, PairFor, HiLoUpdate;
    HiLoStep(host, m, rs, rt, rd, shamt, fun);
    UpdatePair(CountStep(m.cpu), fun, m.cpu.registers[rs], m.cpu.registers[rt]);
  }

  lemma MoveFrom(host: Host, m: Machine, rd: Reg)
    ensures AtR(m, 0x10, rd) ==> Puts(host, m, rd, m.cpu.hi)
    ensures AtR(m, 0x12, rd) ==> Puts(host, m, rd, m.cpu.lo)
  {
    hide At, RType, Puts;
    forall rs: Reg, rt: Reg, shamt: Reg
      ensures At(m, RType(0, rs, rt, rd, shamt, 0x10)) ==> Puts(host, m, rd, m.cpu.hi)
      ensures At(m, RType(0, rs, rt, rd, shamt, 0x12)) ==> Puts(host, m, rd, m.cpu.lo)
    {
      MovePairLaw(host, m, rs, rt, rd, shamt);
    }
  }

  /** After a multiplication or division, `mfhi` and `mflo` put into two registers exactly the
      product, or the remainder and the quotient; of the other registers only the first
      instruction's destination changes. */
  lemma PairReadBack(host: Host, m: Machine, m1: Machine, m2: Machine, m3: Machine,
                     rs: Reg, rt: Reg, rd: Reg, shamt: Reg, fun: Code, a: Reg, b: Reg)
    requires At(m, RType(0, rs, rt, rd, shamt, fun)) && 0x18 <= fun <= 0x1B && MachineStep(host, m) == Ok(m1)
    requires AtR(m1, 0x10, a) && MachineStep(host, m1) == Ok(m2)
    requires AtR(m2, 0x12, b) && MachineStep(host, m2) == Ok(m3)
    requires a != 0 && b != 0 && a != b
    ensures PairFor(fun, m.cpu.registers[rs], m.cpu.registers[rt], m3.cpu.registers[a], m3.cpu.registers[b])
    ensures forall r: Reg | r != a && r != b && r != rd :: m3.cpu.registers[r] == m.cpu.registers[r]
    ensures m3.contents == m.contents
  {
    hide At, AtR, MachineStep, PairFor, RType;
    ArithmeticPairLaw(host, m, rs, rt, rd, shamt, fun);
    MoveFrom(host, m1, a);
    MoveFrom(host, m2, b);
  }

  /** The instructions that may change the pair. */
  predicate WritesPair(insn: Word) {
    Opcode(insn) == 0 && (Funct(insn) == 0x11 || Funct(insn) == 0x13 || 0x18 <= Funct(insn) <= 0x1B)
  }

  lemma PlainKeepsPair(c: Cpu, insn: Word, env: Env)
    requires Instruction(c, insn, env).Ok? && !WritesPair(insn) && !IsSyscall(insn)
    ensures var c' := Instruction(c, insn, env).value.cpu;
      c'.hi == c.hi && c'.lo == c.lo
  {
    hide AluResult, SignExtend, Shl, BranchTaken, Operand, EffectiveAddress, Add;
  }

  lemma SyscallKeepsPair(c: Cpu, env: Env)
    requires Syscall(c, env).Ok?
    ensures var c' := Syscall(c, env).value.cpu;
      c'.hi == c.hi && c'.lo == c.lo
  {
    hide Add, RoundToPage, PreimageReadCount, PreimageWord, KeyBytes, ShiftKey, KeyWriteCount;
  }

  /** Every other instruction keeps HI and LO. */
  lemma PairKept(host: Host, m: Machine)
    requires MachineStep(host, m).Ok? && (m.cpu.pc % 4 == 0 ==> !WritesPair(Current(m)))
    ensures var m' := MachineStep(host, m).value;
      m'.cpu.hi == m.cpu.hi && m'.cpu.lo == m.cpu.lo
  {
    hide Instruction, WriteOutput, Preimage, AccessedWord, ApplyStore, Access, Syscall, WordAt;
    if !m.cpu.exited {
      var c, insn := CountStep(m.cpu), Current(m);
      var env := Env(AccessedWord(m.contents, Access(c, insn)), Preimage(host, m.(cpu := c)),
                     Succeeded(WriteOutput(host, c, m.contents, m.streams)));
      if IsSyscall(insn) {
        SyscallInstruction(c, insn, env);
        SyscallKeepsPair(c, env);
      } else {
        PlainKeepsPair(c, insn, env);
      }
    }
  }

  ghost predicate NoPairWrites(host: Host, m: Machine, n: nat)
    decreases n
  {
    n > 0 && MachineStep(host, m).Ok? ==>
      (m.cpu.pc % 4 == 0 ==> !WritesPair(Current(m))) && NoPairWrites(host, MachineStep(host, m).value, n - 1)
  }

  /** What `mthi` and `mtlo` set is what `mfhi` and `mflo` deliver any number of steps later,
      unless the pair was written in between. */
  lemma {:induction false} PairSurvives(host: Host, m: Machine, n: nat, a: Reg)
    requires MachineRun(host, m, n).Ok? && NoPairWrites(host, m, n)
    ensures var last := MachineRun(host, m, n).value;
      && (AtR(last, 0x10, a) ==> Puts(host, last, a, m.cpu.hi))
      && (AtR(last, 0x12, a) ==> Puts(host, last, a, m.cpu.lo))
    decreases n
  {
    hide MachineStep, AtR, Puts, WritesPair;
    if n > 0 {
      PairKept(host, m);
      PairSurvives(host, MachineStep(host, m).value, n - 1, a);
    } else {
      MoveFrom(host, m, a);
    }
  }
}
