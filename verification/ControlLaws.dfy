/** Branches and jumps, instruction by instruction: where control goes, which register is set,
    and that nothing else changes. */
module ControlLaws {
  import opened Words
  import opened Results
  import opened UpperTree
  import opened Alu
  import opened Cpu
  import opened Machine
  import opened ArithmeticLaws
  import opened Assembly
  import opened Runs

  /** A branch that is taken goes four times its offset beyond the delay slot's address; one
      that is not goes past the slot. */
  function BranchTo(pc: Word, taken: bool, imm: Half): Word {
    if taken then (pc + 4 + 4 * Offset(imm)) % 0x1_0000_0000 else (pc + 8) % 0x1_0000_0000
  }

  lemma OffsetWraps(pc: Word, d: int)
    requires -0x8000 <= d < 0x8000
    ensures Add(Add(pc, 4), d % WORD_LIMIT * 4 % WORD_LIMIT) == (pc + 4 + 4 * d) % WORD_LIMIT
  {
    var e := if d < 0 then d + WORD_LIMIT else d;
    assert d % WORD_LIMIT == e;
    var f := if d < 0 then 4 * d + WORD_LIMIT else 4 * d;
    assert e * 4 % WORD_LIMIT == f;
    var base := pc + 4;
    assert Add(pc, 4) == if base < WORD_LIMIT then base else base - WORD_LIMIT;
  }

  lemma BranchOffset(pc: Word, imm: Half)
    ensures Add(Add(pc, 4), Shl(SignExtend(imm, 16), 2)) == (pc + 4 + 4 * Offset(imm)) % WORD_LIMIT
  {
    hide SignExtend, Add;
    ImmediateExtended(imm);
    ShlByTwo(SignExtend(imm, 16));
    OffsetWraps(pc, Offset(imm));
  }

  lemma ShlByTwo(x: Word)
    ensures Shl(x, 2) == x * 4 % WORD_LIMIT
  {
    assert Pow2(2) == 4;
  }

  /** A branch instruction, given the decision. */
  lemma BranchEffect(c: Cpu, insn: Word, env: Env)
    requires IsBranch(insn)
    ensures var taken := BranchTaken(Opcode(insn), RtField(insn), c.registers[RsField(insn)], c.registers[RtField(insn)]);
      Instruction(c, insn, env) ==
        if !Sequential(c) then Err(BranchInDelaySlot)
        else Ok(Effect(c.(pc := c.nextPc,
          nextPc := if taken then Add(Add(c.pc, 4), Shl(SignExtend(ImmField(insn), 16), 2)) else Add(c.nextPc, 4)), None))
  {
    hide BranchTaken, SignExtend, Shl, Compute, Add;
  }

  lemma AfterSlot(pc: Word)
    ensures Add(Add(pc, 4), 4) == (pc + 8) % WORD_LIMIT
  {
  }

  /** A branch step, given the decision. */
  lemma BranchStep(host: Host, m: Machine, op: Code, rs: Reg, rt: Reg, imm: Half, taken: bool)
    requires At(m, IType(op, rs, rt, imm)) && (4 <= op < 8 || op == 1)
    requires taken == BranchTaken(op, rt, m.cpu.registers[rs], m.cpu.registers[rt])
    ensures MachineStep(host, m) ==
      if Sequential(m.cpu) then Ok(m.(cpu := Transfer(m.cpu, BranchTo(m.cpu.pc, taken, imm))))
      else Err(BranchInDelaySlot)
  {
    hide BranchTaken, SignExtend, Shl, At, Outside, IType, MachineStep, Instruction, Add;
    var insn := IType(op, rs, rt, imm);
    IFields(op, rs, rt, imm);
    NoSyscall(insn);
    RegisterStep(host, m, insn);
    BranchEffect(CountStep(m.cpu), insn, Outside(host, m, insn));
    BranchOffset(m.cpu.pc, imm);
    AfterSlot(m.cpu.pc);
  }

  lemma NoSyscall(insn: Word)
    requires Opcode(insn) != 0
    ensures !IsSyscall(insn)
  {
  }

  /** The six branches. The conditions are on unsigned register values: a word of 2^31 or more
      is negative. A branch in a delay slot is an error. */
  lemma BeqLaw(host: Host, m: Machine, rs: Reg, rt: Reg, imm: Half)
    requires At(m, IType(4, rs, rt, imm))
    ensures MachineStep(host, m) ==
      if !Sequential(m.cpu) then Err(BranchInDelaySlot)
      else Ok(m.(cpu := Transfer(m.cpu, BranchTo(m.cpu.pc, m.cpu.registers[rs] == m.cpu.registers[rt], imm))))
  {
    hide At, IType, MachineStep;
    BranchStep(host, m, 4, rs, rt, imm, m.cpu.registers[rs] == m.cpu.registers[rt]);
  }

  lemma BneLaw(host: Host, m: Machine, rs: Reg, rt: Reg, imm: Half)
    requires At(m, IType(5, rs, rt, imm))
    ensures MachineStep(host, m) ==
      if !Sequential(m.cpu) then Err(BranchInDelaySlot)
      else Ok(m.(cpu := Transfer(m.cpu, BranchTo(m.cpu.pc, m.cpu.registers[rs] != m.cpu.registers[rt], imm))))
  {
    hide At, IType, MachineStep;
    BranchStep(host, m, 5, rs, rt, imm, m.cpu.registers[rs] != m.cpu.registers[rt]);
  }

  lemma BlezLaw(host: Host, m: Machine, rs: Reg, rt: Reg, imm: Half)
    requires At(m, IType(6, rs, rt, imm))
    ensures var x := m.cpu.registers[rs];
      MachineStep(host, m) ==
        if !Sequential(m.cpu) then Err(BranchInDelaySlot)
        else Ok(m.(cpu := Transfer(m.cpu, BranchTo(m.cpu.pc, x == 0 || x >= 0x8000_0000, imm))))
  {
    hide At, IType, MachineStep;
    var x := m.cpu.registers[rs];
    BranchStep(host, m, 6, rs, rt, imm, x == 0 || x >= 0x8000_0000);
  }

  lemma BgtzLaw(host: Host, m: Machine, rs: Reg, rt: Reg, imm: Half)
    requires At(m, IType(7, rs, rt, imm))
    ensures var x := m.cpu.registers[rs];
      MachineStep(host, m) ==
        if !Sequential(m.cpu) then Err(BranchInDelaySlot)
        else Ok(m.(cpu := Transfer(m.cpu, BranchTo(m.cpu.pc, 0 < x < 0x8000_0000, imm))))
  {
    hide At, IType, MachineStep;
    var x := m.cpu.registers[rs];
    BranchStep(host, m, 7, rs, rt, imm, 0 < x < 0x8000_0000);
  }

  /** `bltz` is code 0 and `bgez` code 1 of the second register field; other codes never branch. */
  lemma BltzBgezLaw(host: Host, m: Machine, rs: Reg, code: Reg, imm: Half)
    requires At(m, IType(1, rs, code, imm))
    ensures var x := m.cpu.registers[rs];
      MachineStep(host, m) ==
        if !Sequential(m.cpu) then Err(BranchInDelaySlot)
        else Ok(m.(cpu := Transfer(m.cpu,
          BranchTo(m.cpu.pc, (code == 0 && x >= 0x8000_0000) || (code == 1 && x < 0x8000_0000), imm))))
  {
    hide At, IType, MachineStep;
    var x := m.cpu.registers[rs];
    BranchStep(host, m, 1, rs, code, imm, (code == 0 && x >= 0x8000_0000) || (code == 1 && x < 0x8000_0000));
  }

  /** `j` and `jal` replace the low 28 bits of the delay slot's address by four times the target
      field; `jal` sets register 31 to the address after the slot, and no other register. */
  lemma JumpLaw(host: Host, m: Machine, link: bool, target: Target26)
    requires At(m, JType(if link then 3 else 2, target))
    ensures !Sequential(m.cpu) ==> MachineStep(host, m) == Err(JumpInDelaySlot)
    ensures Sequential(m.cpu) ==>
      && MachineStep(host, m).Ok?
      && var to := MachineStep(host, m).value.cpu.nextPc;
         && to / 0x1000_0000 == m.cpu.nextPc / 0x1000_0000 && to % 0x1000_0000 == 4 * target
         && MachineStep(host, m).value == m.(cpu :=
              if link then Put(Transfer(m.cpu, to), 31, (m.cpu.pc + 8) % 0x1_0000_0000) else Transfer(m.cpu, to))
  {
    hide At, Outside, JType, Compute, Branch;
    var insn := JType(if link then 3 else 2, target);
    JFields(if link then 3 else 2, target);
    NoSyscall(insn);
    RegisterStep(host, m, insn);
    var top := m.cpu.nextPc / 0x1000_0000;
    DivModUnique(top * 0x1000_0000 + target * 4, 0x1000_0000, top, target * 4);
  }

  /** `jr` and `jalr` go to the register's value; `jalr` sets its destination, if that is not
      register zero, to the address after the slot, and no other register changes. */
  lemma JumpRegisterLaw(host: Host, m: Machine, link: bool, rs: Reg, rt: Reg, rd: Reg, shamt: Reg)
    requires At(m, RType(0, rs, rt, rd, shamt, if link then 9 else 8))
    ensures MachineStep(host, m) ==
      if !Sequential(m.cpu) then Err(JumpInDelaySlot)
      else
        var c := Transfer(m.cpu, m.cpu.registers[rs]);
        Ok(m.(cpu := if link then Put(c, rd, (m.cpu.pc + 8) % 0x1_0000_0000) else c))
  {
    hide At, Outside, RType, Branch, SignExtend, Shl, Shr, LoadStore, Special2, Syscall, HiLo;
    var fun := if link then 9 else 8;
    var insn := RType(0, rs, rt, rd, shamt, fun);
    RFields(0, rs, rt, rd, shamt, fun);
    RegisterStep(host, m, insn);
  }

  /** Over runs: the instruction after a branch's delay slot is the one the branch leads to. */
  lemma BranchAfterSlot(host: Host, m: Machine, rs: Reg, rt: Reg, imm: Half)
    requires MachineRun(host, m, 2).Ok? && !MachineRun(host, m, 2).value.cpu.exited
    ensures var x, y, pc := m.cpu.registers[rs], m.cpu.registers[rt], m.cpu.pc;
      var to := MachineRun(host, m, 2).value.cpu.pc;
      && (At(m, IType(4, rs, rt, imm)) ==> to == BranchTo(pc, x == y, imm))
      && (At(m, IType(5, rs, rt, imm)) ==> to == BranchTo(pc, x != y, imm))
      && (At(m, IType(6, rs, rt, imm)) ==> to == BranchTo(pc, x == 0 || x >= 0x8000_0000, imm))
      && (At(m, IType(7, rs, rt, imm)) ==> to == BranchTo(pc, 0 < x < 0x8000_0000, imm))
      && (At(m, IType(1, rs, 0, imm)) ==> to == BranchTo(pc, x >= 0x8000_0000, imm))
      && (At(m, IType(1, rs, 1, imm)) ==> to == BranchTo(pc, x < 0x8000_0000, imm))
  {
    hide At, IType, MachineStep, BranchTo;
    RunDelaySlots(host, m, 1);
    FirstStep(host, m);
    if At(m, IType(4, rs, rt, imm)) {
      BeqLaw(host, m, rs, rt, imm);
    }
    if At(m, IType(5, rs, rt, imm)) {
      BneLaw(host, m, rs, rt, imm);
    }
    if At(m, IType(6, rs, rt, imm)) {
      BlezLaw(host, m, rs, rt, imm);
    }
    if At(m, IType(7, rs, rt, imm)) {
      BgtzLaw(host, m, rs, rt, imm);
    }
    if At(m, IType(1, rs, 0, imm)) {
      BltzBgezLaw(host, m, rs, 0, imm);
    }
    if At(m, IType(1, rs, 1, imm)) {
      BltzBgezLaw(host, m, rs, 1, imm);
    }
  }

  lemma FirstStep(host: Host, m: Machine)
    requires MachineRun(host, m, 2).Ok?
    ensures MachineStep(host, m).Ok? && MachineRun(host, m, 1) == MachineStep(host, m)
  {
    hide MachineStep;
    assert MachineStep(host, m).Ok?;
    assert MachineRun(host, MachineStep(host, m).value, 0) == MachineStep(host, m);
  }

  /** A call: `jal` through register 31, or `jalr` through a destination other than zero. */
  ghost predicate Calls(insn: Word, r: Reg) {
    || (r == 31 && exists target: Target26 :: insn == JType(3, target))
    || (r != 0 && exists rs: Reg, rt: Reg, shamt: Reg :: insn == RType(0, rs, rt, r, shamt, 9))
  }

  lemma CallLinks(host: Host, m: Machine, insn: Word, r: Reg)
    requires At(m, insn) && Calls(insn, r) && MachineStep(host, m).Ok?
    ensures MachineStep(host, m).value.cpu.registers[r] == (m.cpu.pc + 8) % 0x1_0000_0000
  {
    hide At, MachineStep, JType, RType;
    if r == 31 && exists target: Target26 :: insn == JType(3, target) {
      var target: Target26 :| insn == JType(3, target);
      JumpLaw(host, m, true, target);
    } else {
      var rs: Reg, rt: Reg, shamt: Reg :| insn == RType(0, rs, rt, r, shamt, 9);
      JumpRegisterLaw(host, m, true, rs, rt, r, shamt);
    }
  }

  /** Returning from a call: when a `jr` reached any number of steps later finds in the link
      register what the call left there, the instruction after its delay slot is the one after
      the call's delay slot. */
  lemma ReturnLaw(host: Host, m: Machine, insn: Word, r: Reg, n: nat, rt: Reg, rd: Reg, shamt: Reg)
    requires At(m, insn) && Calls(insn, r) && n >= 1
    requires MachineRun(host, m, n).Ok? && At(MachineRun(host, m, n).value, RType(0, r, rt, rd, shamt, 8))
    requires MachineStep(host, m).Ok? ==>
      MachineRun(host, m, n).value.cpu.registers[r] == MachineStep(host, m).value.cpu.registers[r]
    requires MachineRun(host, m, n + 2).Ok? && !MachineRun(host, m, n + 2).value.cpu.exited
    ensures MachineRun(host, m, n + 2).value.cpu.pc == (m.cpu.pc + 8) % 0x1_0000_0000
  {
    hide MachineStep, RType, At, Calls;
    var back := MachineRun(host, m, n).value;
    RunAppend(host, m, n);
    RunDelaySlots(host, m, n + 1);
    CallLinks(host, m, insn, r);
    JumpRegisterLaw(host, back, false, r, rt, rd, shamt);
  }
}
