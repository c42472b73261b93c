/** Instruction words by their bit fields, and one machine step as a change of the whole
    machine. The laws of the instruction set are stated on these, in plain integers. */
module Assembly {
  import opened Words
  import opened Results
  import opened MerkleTree
  import opened UpperTree
  import opened Alu
  import opened Cpu
  import opened Machine
  import opened ArithmeticLaws

  type Reg = r: int | 0 <= r < 32
  type Code = x: int | 0 <= x < 64
  type Half = x: int | 0 <= x < 0x1_0000
  type Target26 = x: int | 0 <= x < 0x400_0000

  /** Register format: six bits of opcode, three registers, a shift amount, a function code. */
  function RType(op: Code, rs: Reg, rt: Reg, rd: Reg, shamt: Reg, fun: Code): Word {
    op * 0x400_0000 + rs * 0x20_0000 + rt * 0x1_0000 + rd * 0x800 + shamt * 0x40 + fun
  }

  /** Immediate format: two registers and sixteen bits. */
  function IType(op: Code, rs: Reg, rt: Reg, imm: Half): Word {
    op * 0x400_0000 + rs * 0x20_0000 + rt * 0x1_0000 + imm
  }

  /** Jump format: twenty-six bits of target. */
  function JType(op: Code, target: Target26): Word { op * 0x400_0000 + target }

  lemma IFields(op: Code, rs: Reg, rt: Reg, imm: Half)
    ensures var insn := IType(op, rs, rt, imm);
      && Opcode(insn) == op && RsField(insn) == rs && RtField(insn) == rt && ImmField(insn) == imm
  {
    var insn := IType(op, rs, rt, imm);
    DivModUnique(insn, 0x400_0000, op, rs * 0x20_0000 + rt * 0x1_0000 + imm);
    DivModUnique(insn, 0x20_0000, op * 32 + rs, rt * 0x1_0000 + imm);
    DivModUnique(insn, 0x1_0000, op * 1024 + rs * 32 + rt, imm);
    DivModUnique(op * 32 + rs, 32, op, rs);
    DivModUnique(op * 1024 + rs * 32 + rt, 32, op * 32 + rs, rt);
  }

  lemma RFields(op: Code, rs: Reg, rt: Reg, rd: Reg, shamt: Reg, fun: Code)
    ensures var insn := RType(op, rs, rt, rd, shamt, fun);
      && Opcode(insn) == op && RsField(insn) == rs && RtField(insn) == rt && RdField(insn) == rd
      && ShamtField(insn) == shamt && Funct(insn) == fun
  {
    IFields(op, rs, rt, rd * 0x800 + shamt * 0x40 + fun);
    LowFields(op * 1024 + rs * 32 + rt, rd, shamt, fun);
  }

  lemma LowFields(upper: nat, rd: Reg, shamt: Reg, fun: Code)
    ensures var insn := upper * 0x1_0000 + rd * 0x800 + shamt * 0x40 + fun;
      insn / 0x800 % 32 == rd && insn / 0x40 % 32 == shamt && insn % 0x40 == fun
  {
    var insn := upper * 0x1_0000 + rd * 0x800 + shamt * 0x40 + fun;
    DivModUnique(insn, 0x800, upper * 32 + rd, shamt * 0x40 + fun);
    DivModUnique(insn, 0x40, (upper * 32 + rd) * 32 + shamt, fun);
    DivModUnique(upper * 32 + rd, 32, upper, rd);
    DivModUnique((upper * 32 + rd) * 32 + shamt, 32, upper * 32 + rd, shamt);
  }

  lemma JFields(op: Code, target: Target26)
    ensures Opcode(JType(op, target)) == op && TargetField(JType(op, target)) == target
  {
    DivModUnique(JType(op, target), 0x400_0000, op, target);
  }

  /** The number in a sixteen-bit two's-complement field. */
  function Offset(imm: Half): int { if imm < 0x8000 then imm else imm - 0x1_0000 }

  lemma ImmediateExtended(imm: Half)
    ensures SignExtend(imm, 16) == Offset(imm) % WORD_LIMIT
  {
    hide SignExtend;
    HalfPowers();
    SignExtendExact(imm, 16);
  }

  lemma HalfPowers()
    ensures Pow2(15) == 0x8000 && Pow2(16) == 0x1_0000
  {
    assert Pow2(8) == 0x100;
  }

  /** The four bytes at an address, highest first, as a number. */
  function BigEndian(contents: Flat, a: Word): int
    requires a % 4 == 0
  {
    var b0: int, b1: int, b2: int, b3: int := contents[a], contents[a + 1], contents[a + 2], contents[a + 3];
    b0 * 0x100_0000 + b1 * 0x1_0000 + b2 * 0x100 + b3
  }

  lemma WordIsBigEndian(contents: Flat, a: Word)
    requires a % 4 == 0
    ensures WordAt(contents, a) == BigEndian(contents, a)
  {
    var word := contents[a..a + 4];
    assert word[0] == contents[a] && word[1] == contents[a + 1] && word[2] == contents[a + 2] && word[3] == contents[a + 3];
  }

  /** The machine is about to execute the given instruction word. */
  predicate At(m: Machine, insn: Word) {
    !m.cpu.exited && m.cpu.pc % 4 == 0 && BigEndian(m.contents, m.cpu.pc) == insn
  }

  /** About to execute a register-format instruction with the given destination. */
  ghost predicate AtR(m: Machine, fun: Code, rd: Reg) {
    exists rs: Reg, rt: Reg, shamt: Reg :: At(m, RType(0, rs, rt, rd, shamt, fun))
  }

  /** The step is counted and control moves on to the next instruction. */
  function Forward(c: Cpu): Cpu {
    c.(step := (c.step + 1) % 0x1_0000_0000_0000_0000, pc := c.nextPc, nextPc := (c.nextPc + 4) % 0x1_0000_0000)
  }

  /** The step is counted and control transfers after the delay slot. */
  function Transfer(c: Cpu, target: Word): Cpu {
    c.(step := (c.step + 1) % 0x1_0000_0000_0000_0000, pc := c.nextPc, nextPc := target)
  }

  /** A register is set; register zero is not. */
  function Put(c: Cpu, r: Reg, value: Word): Cpu {
    if r == 0 then c else c.(registers := c.registers[r := value])
  }

  /** What the instruction sees of the outside. */
  function Outside(host: Host, m: Machine, insn: Word): Env {
    var counted := m.(cpu := CountStep(m.cpu));
    Env(AccessedWord(m.contents, Access(counted.cpu, insn)), Preimage(host, counted),
        Succeeded(WriteOutput(host, counted.cpu, m.contents, m.streams)))
  }

  /** A step of anything but a syscall changes registers and memory as the instruction does, and
      nothing else. */
  lemma PlainStep(host: Host, m: Machine, insn: Word)
    requires At(m, insn) && !IsSyscall(insn)
    ensures var c := CountStep(m.cpu);
      var r := Instruction(c, insn, Outside(host, m, insn));
      MachineStep(host, m) ==
        if r.Err? then Err(r.error)
        else Ok(m.(cpu := r.value.cpu, contents := ApplyStore(m.contents, Access(c, insn), r.value.store)))
  {
    hide Instruction, WriteOutput, Preimage, AccessedWord, ApplyStore, Access, WordAt, BigEndian;
    WordIsBigEndian(m.contents, m.cpu.pc);
  }

  /** The same when the instruction neither loads nor stores. */
  lemma RegisterStep(host: Host, m: Machine, insn: Word)
    requires At(m, insn) && !IsSyscall(insn) && Opcode(insn) < 0x20
    ensures var r := Instruction(CountStep(m.cpu), insn, Outside(host, m, insn));
      MachineStep(host, m) == if r.Err? then Err(r.error) else Ok(m.(cpu := r.value.cpu))
  {
    hide Instruction, At, Outside;
    PlainStep(host, m, insn);
  }
}
