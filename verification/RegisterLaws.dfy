/** Instructions between registers, by their effect on the whole machine: which register
    receives which number, and that nothing else changes. */
module RegisterLaws {
  import opened Words
  import opened Results
  import opened Alu
  import opened Cpu
  import opened Machine
  import opened ArithmeticLaws
  import opened Assembly

  /** The step puts a value into a register and moves on to the next instruction. */
  ghost predicate Puts(host: Host, m: Machine, r: Reg, value: int) {
    0 <= value < 0x1_0000_0000 && MachineStep(host, m) == Ok(m.(cpu := Put(Forward(m.cpu), r, value)))
  }

  /** Instructions that compute one value. */
  predicate Computes(insn: Word) {
    (Opcode(insn) == 0 && !(8 <= Funct(insn) < 0x1C)) || 8 <= Opcode(insn) < 0x20
  }

  lemma ComputedEffect(c: Cpu, insn: Word, env: Env, v: Word)
    requires Computes(insn) && AluResult(insn, c.registers[RsField(insn)], Operand(c, insn), 0) == Ok(v)
    ensures Instruction(c, insn, env) == Ok(Effect(Advance(Put(c, DestReg(insn), v)), None))
  {
    hide AluResult, Operand, Advance, Branch, Jump, Special, EffectiveAddress;
  }

  lemma ComputedStep(host: Host, m: Machine, insn: Word, v: Word)
    requires At(m, insn) && Computes(insn)
    requires AluResult(insn, m.cpu.registers[RsField(insn)], Operand(m.cpu, insn), 0) == Ok(v)
    ensures Puts(host, m, DestReg(insn), v)
  {
    hide AluResult, At, MachineStep, Instruction, Outside, Operand, RsField;
    RegisterStep(host, m, insn);
    SameOperand(m.cpu, insn);
    ComputedEffect(CountStep(m.cpu), insn, Outside(host, m, insn), v);
  }

  lemma SameOperand(c: Cpu, insn: Word)
    ensures Operand(CountStep(c), insn) == Operand(c, insn)
  {
    hide SignExtend;
  }

  /** A register-format instruction with the given ALU result. */
  lemma RStep(host: Host, m: Machine, rs: Reg, rt: Reg, rd: Reg, shamt: Reg, fun: Code, v: Word)
    requires At(m, RType(0, rs, rt, rd, shamt, fun)) && !(8 <= fun < 0x1C)
    requires Arithmetic(fun, shamt, m.cpu.registers[rs], m.cpu.registers[rt]) == Ok(v)
    ensures Puts(host, m, rd, v)
  {
    hide At, RType, Arithmetic, Puts, SignExtend, LoadStore, Special2;
    RFields(0, rs, rt, rd, shamt, fun);
    ComputedStep(host, m, RType(0, rs, rt, rd, shamt, fun), v);
  }

  /** The cases of the ALU. */
  lemma Cases(shamt: Word, x: Word, y: Word)
    ensures Arithmetic(0x00, shamt, x, y) == Ok(Shl(y, shamt)) && Arithmetic(0x04, shamt, x, y) == Ok(Shl(y, x % 32))
    ensures Arithmetic(0x02, shamt, x, y) == Ok(Shr(y, shamt)) && Arithmetic(0x06, shamt, x, y) == Ok(Shr(y, x % 32))
    ensures Arithmetic(0x03, shamt, x, y) == Ok(SignExtend(Shr(y, shamt), Sub(32, shamt)))
    ensures Arithmetic(0x07, shamt, x, y) == Ok(SignExtend(Shr(y, x), Sub(32, x)))
    ensures Arithmetic(0x20, shamt, x, y) == Arithmetic(0x21, shamt, x, y) == Ok((x + y) % WORD_LIMIT)
    ensures Arithmetic(0x22, shamt, x, y) == Arithmetic(0x23, shamt, x, y) == Ok((x - y) % WORD_LIMIT)
    ensures Arithmetic(0x24, shamt, x, y).Ok? && Arithmetic(0x25, shamt, x, y).Ok?
    ensures Arithmetic(0x26, shamt, x, y).Ok? && Arithmetic(0x27, shamt, x, y).Ok?
    ensures Arithmetic(0x2A, shamt, x, y) == Ok(if Signed(x) < Signed(y) then 1 else 0)
    ensures Arithmetic(0x2B, shamt, x, y) == Ok(if x < y then 1 else 0)
  {
    hide Shl, Shr, SignExtend, And, OrW, XorW;
  }

  /** Shifts as arithmetic: left within 32 bits; right of the unsigned number; right of the signed
      number, rounding down - but by zero the emulator's `sra` and `srav` give zero. */
  function LeftShift(y: Word, s: Reg): Word { y * Pow2(s) % 0x1_0000_0000 }

  function RightShift(y: Word, s: Reg): Word {
    DivShrinks(y, Pow2(s));
    y / Pow2(s)
  }

  function SignedRightShift(y: Word, s: Reg): Word { if s == 0 then 0 else Signed(y) / Pow2(s) % 0x1_0000_0000 }

  /** The shifts of the emulator, by an amount modulo 32. */
  lemma Shifted(y: Word, k: Word)
    ensures Shl(y, k) == LeftShift(y, k % 32) && Shr(y, k) == RightShift(y, k % 32)
    ensures SignExtend(Shr(y, k), Sub(32, k)) == SignedRightShift(y, k % 32)
  {
    hide SignExtend, Sub, Pow2;
    ShiftBySra(y, k);
  }

  lemma ShiftValues(shamt: Reg, x: Word, y: Word)
    ensures Arithmetic(0x00, shamt, x, y) == Ok(LeftShift(y, shamt))
    ensures Arithmetic(0x04, shamt, x, y) == Ok(LeftShift(y, x % 32))
    ensures Arithmetic(0x02, shamt, x, y) == Ok(RightShift(y, shamt))
    ensures Arithmetic(0x06, shamt, x, y) == Ok(RightShift(y, x % 32))
    ensures Arithmetic(0x03, shamt, x, y) == Ok(SignedRightShift(y, shamt))
    ensures Arithmetic(0x07, shamt, x, y) == Ok(SignedRightShift(y, x % 32))
  {
    hide LeftShift, RightShift, SignedRightShift, SignExtend, Arithmetic, Sub, Shl, Shr;
    Shifted(y, shamt);
    Shifted(y, x);
    Shifted(y, x % 32);
    Cases(shamt, x, y);
  }

  /** Shifts by a constant, and by a register's value modulo 32. */
  lemma ShiftLaw(host: Host, m: Machine, rs: Reg, rt: Reg, rd: Reg, shamt: Reg)
    ensures var x, y := m.cpu.registers[rs], m.cpu.registers[rt];
      && (At(m, RType(0, rs, rt, rd, shamt, 0)) ==> Puts(host, m, rd, LeftShift(y, shamt)))
      && (At(m, RType(0, rs, rt, rd, shamt, 2)) ==> Puts(host, m, rd, RightShift(y, shamt)))
      && (At(m, RType(0, rs, rt, rd, shamt, 3)) ==> Puts(host, m, rd, SignedRightShift(y, shamt)))
      && (At(m, RType(0, rs, rt, rd, shamt, 4)) ==> Puts(host, m, rd, LeftShift(y, x % 32)))
      && (At(m, RType(0, rs, rt, rd, shamt, 6)) ==> Puts(host, m, rd, RightShift(y, x % 32)))
      && (At(m, RType(0, rs, rt, rd, shamt, 7)) ==> Puts(host, m, rd, SignedRightShift(y, x % 32)))
  {
    hide At, RType, Puts, Arithmetic, LeftShift, RightShift, SignedRightShift;
    var x, y := m.cpu.registers[rs], m.cpu.registers[rt];
    ShiftValues(shamt, x, y);
    forall fun: Code, v: Word | At(m, RType(0, rs, rt, rd, shamt, fun)) && !(8 <= fun < 0x1C)
                               && Arithmetic(fun, shamt, x, y) == Ok(v)
      ensures Puts(host, m, rd, v)
    {
      RStep(host, m, rs, rt, rd, shamt, fun, v);
    }
  }

  lemma AddCompareValues(shamt: Word, x: Word, y: Word, sum: Word, difference: Word)
    requires sum == (x + y) % WORD_LIMIT && difference == (x - y) % WORD_LIMIT
    ensures Arithmetic(0x20, shamt, x, y) == Arithmetic(0x21, shamt, x, y) == Ok(sum)
    ensures Arithmetic(0x22, shamt, x, y) == Arithmetic(0x23, shamt, x, y) == Ok(difference)
    ensures Arithmetic(0x2A, shamt, x, y) == Ok(if Signed(x) < Signed(y) then 1 else 0)
    ensures Arithmetic(0x2B, shamt, x, y) == Ok(if x < y then 1 else 0)
  {
    hide Arithmetic, Signed;
    Cases(shamt, x, y);
  }

  /** `add` and `addu` add, `sub` and `subu` subtract the second from the first, modulo 2^32;
      `slt` and `sltu` compare signed and unsigned numbers. */
  lemma AddCompareLaw(host: Host, m: Machine, rs: Reg, rt: Reg, rd: Reg, shamt: Reg)
    ensures var x: int, y: int := m.cpu.registers[rs], m.cpu.registers[rt];
      && (At(m, RType(0, rs, rt, rd, shamt, 0x20)) ==> Puts(host, m, rd, (x + y) % 0x1_0000_0000))
      && (At(m, RType(0, rs, rt, rd, shamt, 0x21)) ==> Puts(host, m, rd, (x + y) % 0x1_0000_0000))
      && (At(m, RType(0, rs, rt, rd, shamt, 0x22)) ==> Puts(host, m, rd, (x - y) % 0x1_0000_0000))
      && (At(m, RType(0, rs, rt, rd, shamt, 0x23)) ==> Puts(host, m, rd, (x - y) % 0x1_0000_0000))
      && (At(m, RType(0, rs, rt, rd, shamt, 0x2A)) ==> Puts(host, m, rd, if Signed(x) < Signed(y) then 1 else 0))
      && (At(m, RType(0, rs, rt, rd, shamt, 0x2B)) ==> Puts(host, m, rd, if x < y then 1 else 0))
  {
    hide At, RType, Puts, Arithmetic, Signed;
    var x: int, y: int := m.cpu.registers[rs], m.cpu.registers[rt];
    AddCompareValues(shamt, x, y, (x + y) % 0x1_0000_0000, (x - y) % 0x1_0000_0000);
    forall fun: Code, v: Word | At(m, RType(0, rs, rt, rd, shamt, fun)) && !(8 <= fun < 0x1C)
                               && Arithmetic(fun, shamt, x, y) == Ok(v)
      ensures Puts(host, m, rd, v)
    {
      RStep(host, m, rs, rt, rd, shamt, fun, v);
    }
  }

  /** The number with the given binary digits. */
  ghost function FromBits(bit: nat -> bool, k: nat): (x: nat)
    ensures x < Pow2(k)
    decreases k
  {
    if k == 0 then 0 else FromBits(bit, k - 1) + (if bit(k - 1) then Pow2(k - 1) else 0)
  }

  /** A logical operation on each of the 32 digits alone. */
  ghost function Bitwise(op: (bool, bool) -> bool, x: Word, y: Word): Word {
    Pow2At32();
    FromBits((i: nat) => op(Bit(x, i) == 1, Bit(y, i) == 1), 32)
  }

  lemma {:induction false} DigitsDetermine(x: nat, bit: nat -> bool, k: nat)
    requires forall i: nat | i < k :: bit(i) <==> Bit(x, i) == 1
    ensures FromBits(bit, k) == x % Pow2(k)
    decreases k
  {
    hide Pow2;
    if k > 0 {
      DigitsDetermine(x, bit, k - 1);
      PowDouble(k);
      ModDouble(x, Pow2(k - 1));
      assert bit(k - 1) <==> Bit(x, k - 1) == 1;
      TopBit(Bit(x, k - 1), Pow2(k - 1));
    } else {
      PowZero();
    }
  }

  lemma PowZero()
    ensures Pow2(0) == 1
  {
  }

  /** The four logical operations of the ALU. */
  lemma LogicValues(shamt: Word, x: Word, y: Word)
    ensures Arithmetic(0x24, shamt, x, y) == Ok(Bitwise((p, q) => p && q, x, y))
    ensures Arithmetic(0x25, shamt, x, y) == Ok(Bitwise((p, q) => p || q, x, y))
    ensures Arithmetic(0x26, shamt, x, y) == Ok(Bitwise((p, q) => p != q, x, y))
    ensures Arithmetic(0x27, shamt, x, y) == Ok(Bitwise((p, q) => !(p || q), x, y))
  {
    hide Arithmetic, Bit, FromBits, Pow2, Bitwise;
    Cases(shamt, x, y);
    forall i: nat | i < 32
      ensures Bit(Arithmetic(0x24, shamt, x, y).value, i) == (if Bit(x, i) == 1 && Bit(y, i) == 1 then 1 else 0)
      ensures Bit(Arithmetic(0x25, shamt, x, y).value, i) == (if Bit(x, i) == 1 || Bit(y, i) == 1 then 1 else 0)
      ensures Bit(Arithmetic(0x26, shamt, x, y).value, i) == (if Bit(x, i) != Bit(y, i) then 1 else 0)
      ensures Bit(Arithmetic(0x27, shamt, x, y).value, i) == (if Bit(x, i) == 1 || Bit(y, i) == 1 then 0 else 1)
      ensures Bit(x, i) == 0 || Bit(x, i) == 1
      ensures Bit(y, i) == 0 || Bit(y, i) == 1
    {
      LogicExact(shamt, x, y, i);
      BitRange(x, i);
      BitRange(y, i);
    }
    BitwiseIs((p, q) => p && q, x, y, Arithmetic(0x24, shamt, x, y).value);
    BitwiseIs((p, q) => p || q, x, y, Arithmetic(0x25, shamt, x, y).value);
    BitwiseIs((p, q) => p != q, x, y, Arithmetic(0x26, shamt, x, y).value);
    BitwiseIs((p, q) => !(p || q), x, y, Arithmetic(0x27, shamt, x, y).value);
  }

  lemma BitwiseIs(op: (bool, bool) -> bool, x: Word, y: Word, v: Word)
    requires forall i: nat | i < 32 :: Bit(v, i) == 1 <==> op(Bit(x, i) == 1, Bit(y, i) == 1)
    ensures v == Bitwise(op, x, y)
  {
    hide Bit, FromBits, Pow2;
    Pow2At32();
    DigitsDetermine(v, (i: nat) => op(Bit(x, i) == 1, Bit(y, i) == 1), 32);
  }

  /** `and`, `or`, `xor` and `nor`. */
  lemma LogicLaw(host: Host, m: Machine, rs: Reg, rt: Reg, rd: Reg, shamt: Reg)
    ensures var x, y := m.cpu.registers[rs], m.cpu.registers[rt];
      && (At(m, RType(0, rs, rt, rd, shamt, 0x24)) ==> Puts(host, m, rd, Bitwise((p, q) => p && q, x, y)))
      && (At(m, RType(0, rs, rt, rd, shamt, 0x25)) ==> Puts(host, m, rd, Bitwise((p, q) => p || q, x, y)))
      && (At(m, RType(0, rs, rt, rd, shamt, 0x26)) ==> Puts(host, m, rd, Bitwise((p, q) => p != q, x, y)))
      && (At(m, RType(0, rs, rt, rd, shamt, 0x27)) ==> Puts(host, m, rd, Bitwise((p, q) => !(p || q), x, y)))
  {
    hide At, RType, Puts, Arithmetic, Bitwise;
    var x, y := m.cpu.registers[rs], m.cpu.registers[rt];
    LogicValues(shamt, x, y);
    forall fun: Code, v: Word | At(m, RType(0, rs, rt, rd, shamt, fun)) && !(8 <= fun < 0x1C)
                               && Arithmetic(fun, shamt, x, y) == Ok(v)
      ensures Puts(host, m, rd, v)
    {
      RStep(host, m, rs, rt, rd, shamt, fun, v);
    }
  }

  /** `movz` moves when the second register is zero, `movn` when it is not. */
  lemma MoveLaw(host: Host, m: Machine, rs: Reg, rt: Reg, rd: Reg, shamt: Reg, zero: bool)
    requires At(m, RType(0, rs, rt, rd, shamt, if zero then 0x0A else 0x0B))
    ensures MachineStep(host, m) == Ok(m.(cpu :=
      if (m.cpu.registers[rt] == 0) == zero then Put(Forward(m.cpu), rd, m.cpu.registers[rs]) else Forward(m.cpu)))
  {
    hide At, RType, MachineStep, Instruction, Outside;
    var fun := if zero then 0x0A else 0x0B;
    var insn := RType(0, rs, rt, rd, shamt, fun);
    RFields(0, rs, rt, rd, shamt, fun);
    RegisterStep(host, m, insn);
    MoveEffect(CountStep(m.cpu), insn, Outside(host, m, insn));
  }

  lemma MoveEffect(c: Cpu, insn: Word, env: Env)
    requires Opcode(insn) == 0 && 0x0A <= Funct(insn) <= 0x0B
    ensures Instruction(c, insn, env) == Ok(Effect(Advance(
      if (c.registers[RtField(insn)] == 0) == (Funct(insn) == 0x0A) then Put(c, RdField(insn), c.registers[RsField(insn)])
      else c), None))
  {
    hide Advance, Branch, Jump, Syscall, HiLo, EffectiveAddress, SignExtend, Shl, Shr;
  }

  /** The second operand of an immediate instruction: a number with sign, but an unsigned one
      for the logical operations. */
  function ImmediateOperand(op: Code, imm: Half): Word {
    if 0x0C <= op <= 0x0E then imm else Offset(imm) % 0x1_0000_0000
  }

  /** The register-format function code of an immediate instruction. */
  function ImmediateFunction(op: Code): Code {
    if op == 8 then 0x20 else if op == 9 then 0x21 else if op == 0x0A then 0x2A else if op == 0x0B then 0x2B
    else if op == 0x0C then 0x24 else if op == 0x0D then 0x25 else 0x26
  }

  lemma IStep(host: Host, m: Machine, op: Code, rs: Reg, rt: Reg, imm: Half, v: Word)
    requires At(m, IType(op, rs, rt, imm)) && 8 <= op < 0x0F
    requires forall shamt: Word ::
      Arithmetic(ImmediateFunction(op), shamt, m.cpu.registers[rs], ImmediateOperand(op, imm)) == Ok(v)
    ensures Puts(host, m, rt, v)
  {
    hide At, IType, Arithmetic, Puts, SignExtend, LoadStore, Special2, Offset;
    var insn := IType(op, rs, rt, imm);
    IFields(op, rs, rt, imm);
    ImmediateExtended(imm);
    assert Operand(m.cpu, insn) == ImmediateOperand(op, imm);
    assert AluFunction(insn) == ImmediateFunction(op);
    ComputedStep(host, m, insn, v);
  }

  lemma ImmediateValues(shamt: Word, x: Word, y: Word, d: int, sum: Word)
    requires Signed(y) == d && (x + y) % WORD_LIMIT == sum
    ensures Arithmetic(0x20, shamt, x, y) == Arithmetic(0x21, shamt, x, y) == Ok(sum)
    ensures Arithmetic(0x2A, shamt, x, y) == Ok(if Signed(x) < d then 1 else 0)
    ensures Arithmetic(0x2B, shamt, x, y) == Ok(if x < y then 1 else 0)
  {
    hide Arithmetic, Signed;
    Cases(shamt, x, y);
  }

  /** Immediates are sign-extended for `addi`, `addiu`, `slti` and `sltiu`. */
  lemma ImmediateLaw(host: Host, m: Machine, rs: Reg, rt: Reg, imm: Half)
    ensures var x, d := m.cpu.registers[rs], Offset(imm);
      && (At(m, IType(8, rs, rt, imm)) ==> Puts(host, m, rt, (x + d) % 0x1_0000_0000))
      && (At(m, IType(9, rs, rt, imm)) ==> Puts(host, m, rt, (x + d) % 0x1_0000_0000))
      && (At(m, IType(0x0A, rs, rt, imm)) ==> Puts(host, m, rt, if Signed(x) < d then 1 else 0))
      && (At(m, IType(0x0B, rs, rt, imm)) ==> Puts(host, m, rt, if x < d % 0x1_0000_0000 then 1 else 0))
  {
    hide At, IType, Puts, Arithmetic, Offset, Signed;
    var x, d := m.cpu.registers[rs], Offset(imm);
    var y, sum := d % 0x1_0000_0000, (x + d) % 0x1_0000_0000;
    OffsetOperand(x, imm);
    forall op: Code, v: Word | At(m, IType(op, rs, rt, imm)) && 8 <= op < 0x0C
        && (forall shamt: Word :: Arithmetic(ImmediateFunction(op), shamt, x, y) == Ok(v))
      ensures Puts(host, m, rt, v)
    {
      IStep(host, m, op, rs, rt, imm, v);
    }
    forall shamt: Word
      ensures Arithmetic(0x20, shamt, x, y) == Arithmetic(0x21, shamt, x, y) == Ok(sum)
      ensures Arithmetic(0x2A, shamt, x, y) == Ok(if Signed(x) < d then 1 else 0)
      ensures Arithmetic(0x2B, shamt, x, y) == Ok(if x < y then 1 else 0)
    {
      ImmediateValues(shamt, x, y, d, sum);
    }
  }

  lemma OffsetOperand(x: Word, imm: Half)
    ensures var y := Offset(imm) % WORD_LIMIT;
      (x + y) % WORD_LIMIT == (x + Offset(imm)) % WORD_LIMIT && Signed(y) == Offset(imm)
  {
    var d := Offset(imm);
    assert d % WORD_LIMIT == if d < 0 then d + WORD_LIMIT else d;
  }

  /** Immediates are unsigned for `andi`, `ori` and `xori`. */
  lemma ImmediateLogicLaw(host: Host, m: Machine, rs: Reg, rt: Reg, imm: Half)
    ensures var x := m.cpu.registers[rs];
      && (At(m, IType(0x0C, rs, rt, imm)) ==> Puts(host, m, rt, Bitwise((p, q) => p && q, x, imm)))
      && (At(m, IType(0x0D, rs, rt, imm)) ==> Puts(host, m, rt, Bitwise((p, q) => p || q, x, imm)))
      && (At(m, IType(0x0E, rs, rt, imm)) ==> Puts(host, m, rt, Bitwise((p, q) => p != q, x, imm)))
  {
    hide At, IType, Puts, Arithmetic, Offset, Bitwise;
    var x := m.cpu.registers[rs];
    forall shamt: Word
      ensures Arithmetic(0x24, shamt, x, imm) == Ok(Bitwise((p, q) => p && q, x, imm))
      ensures Arithmetic(0x25, shamt, x, imm) == Ok(Bitwise((p, q) => p || q, x, imm))
      ensures Arithmetic(0x26, shamt, x, imm) == Ok(Bitwise((p, q) => p != q, x, imm))
    {
      LogicValues(shamt, x, imm);
    }
    forall op: Code, v: Word | At(m, IType(op, rs, rt, imm)) && 0x0C <= op < 0x0F
        && (forall shamt: Word :: Arithmetic(ImmediateFunction(op), shamt, x, imm) == Ok(v))
      ensures Puts(host, m, rt, v)
    {
      IStep(host, m, op, rs, rt, imm, v);
    }
  }

  /** `lui` puts the immediate into the upper half. */
  lemma UpperImmediateLaw(host: Host, m: Machine, rs: Reg, rt: Reg, imm: Half)
    requires At(m, IType(0x0F, rs, rt, imm))
    ensures Puts(host, m, rt, imm * 0x1_0000)
  {
    hide At, Puts, Pow2, IType, SignExtend, Arithmetic, Special2;
    var insn := IType(0x0F, rs, rt, imm);
    IFields(0x0F, rs, rt, imm);
    ImmediateExtended(imm);
    ShiftUp(imm);
    UpperResult(m.cpu.registers[rs], Offset(imm) % 0x1_0000_0000);
    ComputedStep(host, m, insn, imm * 0x1_0000);
  }

  lemma UpperResult(x: Word, y: Word)
    ensures LoadStore(0x0F, x, y, 0) == Ok(Shl(y, 16))
  {
    hide Shl, Shr, And, OrW, XorW, SignExtend;
  }

  lemma ShiftUp(imm: Half)
    ensures Shl(Offset(imm) % WORD_LIMIT, 16) == imm * 0x1_0000
  {
    HalfPowers();
    var d := Offset(imm);
    var e := d % WORD_LIMIT;
    assert e == if imm < 0x8000 then imm else imm + 0xFFFF_0000;
    if imm >= 0x8000 {
      DivModUnique(e * 0x1_0000, WORD_LIMIT, 0xFFFF, imm * 0x1_0000);
    }
  }

  /** Number of binary digits. */
  function BitLength(x: nat): nat
    decreases x
  {
    if x == 0 then 0 else 1 + BitLength(x / 2)
  }

  lemma {:induction false} BitLengthIs(x: nat, k: nat)
    requires x < Pow2(k) && (k > 0 ==> x >= Pow2(k - 1))
    ensures BitLength(x) == k
    decreases k
  {
    hide Pow2;
    if k == 0 {
      PowZero();
    } else {
      PowDouble(k);
      if k > 1 {
        PowDouble(k - 1);
      } else {
        PowZero();
      }
      BitLengthIs(x / 2, k - 1);
    }
  }

  /** `mul` leaves the low word of the product; `clz` and `clo` count the digits above the
      highest one and the highest zero. */
  lemma MultiplyCountLaw(host: Host, m: Machine, rs: Reg, rt: Reg, rd: Reg, shamt: Reg)
    ensures var x: int, y: int := m.cpu.registers[rs], m.cpu.registers[rt];
      && (At(m, RType(0x1C, rs, rt, rd, shamt, 0x02)) ==> Puts(host, m, rd, x * y % 0x1_0000_0000))
      && (At(m, RType(0x1C, rs, rt, rd, shamt, 0x20)) ==> BitLength(x) <= 32 && Puts(host, m, rd, 32 - BitLength(x)))
      && (At(m, RType(0x1C, rs, rt, rd, shamt, 0x21)) ==>
        BitLength(0xFFFF_FFFF - x) <= 32 && Puts(host, m, rd, 32 - BitLength(0xFFFF_FFFF - x)))
  {
    hide At, RType, Puts, BitLength, Special2;
    var x, y := m.cpu.registers[rs], m.cpu.registers[rt];
    MulLowWord(x, y);
    CountValues(x, y);
    forall fun: Code, v: Word | At(m, RType(0x1C, rs, rt, rd, shamt, fun)) && Special2(fun, x, y) == Ok(v)
      ensures Puts(host, m, rd, v)
    {
      CStep(host, m, rs, rt, rd, shamt, fun, v);
    }
  }

  lemma CStep(host: Host, m: Machine, rs: Reg, rt: Reg, rd: Reg, shamt: Reg, fun: Code, v: Word)
    requires At(m, RType(0x1C, rs, rt, rd, shamt, fun))
    requires Special2(fun, m.cpu.registers[rs], m.cpu.registers[rt]) == Ok(v)
    ensures Puts(host, m, rd, v)
  {
    hide At, RType, Special2, Puts, SignExtend, LoadStore, Arithmetic;
    RFields(0x1C, rs, rt, rd, shamt, fun);
    ComputedStep(host, m, RType(0x1C, rs, rt, rd, shamt, fun), v);
  }

  lemma CountValues(x: Word, y: Word)
    ensures BitLength(x) <= 32 && Special2(0x20, x, y) == Ok(32 - BitLength(x))
    ensures BitLength(0xFFFF_FFFF - x) <= 32 && Special2(0x21, x, y) == Ok(32 - BitLength(0xFFFF_FFFF - x))
  {
    hide Special2, BitLength, Pow2, LeadingOnesBelow;
    Pow2At32();
    CountExact(x, y);
    CountsWhenFull();
    BitLengthIs(x, 32 - LeadingOnes(Not(x)));
    CountExact(0xFFFF_FFFF - x, y);
    assert Not(0xFFFF_FFFF - x) == x;
    BitLengthIs(0xFFFF_FFFF - x, 32 - LeadingOnes(x));
  }

  lemma CountsWhenFull()
    ensures Pow2(0) == 1
  {
  }

  /** `sync` passes its first operand on like a move. */
  lemma SyncLaw(host: Host, m: Machine, rs: Reg, rt: Reg, rd: Reg, shamt: Reg)
    requires At(m, RType(0, rs, rt, rd, shamt, 0x0F))
    ensures Puts(host, m, rd, m.cpu.registers[rs])
  {
    hide At, RType, MachineStep, Instruction, Outside;
    var insn := RType(0, rs, rt, rd, shamt, 0x0F);
    RFields(0, rs, rt, rd, shamt, 0x0F);
    RegisterStep(host, m, insn);
    SyncEffect(CountStep(m.cpu), insn, Outside(host, m, insn));
  }

  lemma SyncEffect(c: Cpu, insn: Word, env: Env)
    requires Opcode(insn) == 0 && Funct(insn) == 0x0F
    ensures Instruction(c, insn, env) == Ok(Effect(Advance(Put(c, RdField(insn), c.registers[RsField(insn)])), None))
  {
    hide Advance, Branch, Jump, Syscall, HiLo, EffectiveAddress, SignExtend, Shl, Shr;
  }

  /** Function codes and opcodes of the instruction set. */
  const FUNCTIONS: set<int> := {0x00, 0x02, 0x03, 0x04, 0x06, 0x07, 0x08, 0x09, 0x0A, 0x0B, 0x0C, 0x0F, 0x10, 0x11, 0x12,
    0x13, 0x18, 0x19, 0x1A, 0x1B, 0x20, 0x21, 0x22, 0x23, 0x24, 0x25, 0x26, 0x27, 0x2A, 0x2B}
  const OPCODES: set<int> := {0x00, 0x01, 0x02, 0x03, 0x04, 0x05, 0x06, 0x07, 0x08, 0x09, 0x0A, 0x0B, 0x0C, 0x0D, 0x0E,
    0x0F, 0x1C, 0x20, 0x21, 0x22, 0x23, 0x24, 0x25, 0x26, 0x28, 0x29, 0x2A, 0x2B, 0x2E, 0x30, 0x38}

  /** Words outside the instruction set are errors. */
  lemma IllegalLaw(host: Host, m: Machine, op: Code, rs: Reg, rt: Reg, rd: Reg, shamt: Reg, fun: Code)
    requires At(m, RType(op, rs, rt, rd, shamt, fun))
    ensures op == 0 && fun !in FUNCTIONS ==> MachineStep(host, m) == Err(InvalidFunction)
    ensures op == 0x1C && fun !in {0x02, 0x20, 0x21} ==> MachineStep(host, m) == Err(InvalidFunction)
    ensures op !in OPCODES ==> MachineStep(host, m) == Err(InvalidOpcode)
  {
    hide At, RType, MachineStep, Instruction, Outside;
    var insn := RType(op, rs, rt, rd, shamt, fun);
    RFields(op, rs, rt, rd, shamt, fun);
    if op == 0 && fun !in FUNCTIONS {
      PlainStep(host, m, insn);
      IllegalFunction(CountStep(m.cpu), insn, Outside(host, m, insn));
    } else if op == 0x1C && fun !in {0x02, 0x20, 0x21} {
      PlainStep(host, m, insn);
      IllegalFunction(CountStep(m.cpu), insn, Outside(host, m, insn));
    } else if op !in OPCODES {
      PlainStep(host, m, insn);
      IllegalOpcode(CountStep(m.cpu), insn, Outside(host, m, insn));
    }
  }

  lemma IllegalFunction(c: Cpu, insn: Word, env: Env)
    requires (Opcode(insn) == 0 && Funct(insn) !in FUNCTIONS) || (Opcode(insn) == 0x1C && Funct(insn) !in {0x02, 0x20, 0x21})
    ensures Instruction(c, insn, env) == Err(InvalidFunction)
  {
    hide SignExtend, Shl, Shr, And, OrW, XorW, Jump, Branch, Special, WriteResult, EffectiveAddress;
  }

  lemma IllegalOpcode(c: Cpu, insn: Word, env: Env)
    requires Opcode(insn) !in OPCODES
    ensures Instruction(c, insn, env) == Err(InvalidOpcode)
  {
    hide SignExtend, Shl, Shr, And, OrW, XorW, Jump, Branch, Special, WriteResult, EffectiveAddress;
  }
}
