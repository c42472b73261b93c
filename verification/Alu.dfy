/** Instruction fields, sign extension and the ALU. Shifts and masks follow the code operator
    by operator; `Shl` and `Shr` take their amount modulo 32. */
module Alu {
  import opened Words
  import opened Results

  function Opcode(insn: Word): Word { insn / 0x400_0000 }
  function RsField(insn: Word): Word { insn / 0x20_0000 % 32 }
  function RtField(insn: Word): Word { insn / 0x1_0000 % 32 }
  function RdField(insn: Word): Word { insn / 0x800 % 32 }
  function ShamtField(insn: Word): Word { insn / 0x40 % 32 }
  function Funct(insn: Word): Word { insn % 0x40 }
  function ImmField(insn: Word): Word { insn % 0x1_0000 }
  function TargetField(insn: Word): Word { insn % 0x400_0000 }

  function SignExtend(data: Word, index: Word): Word {
    var isSigned := Shr(data, Sub(index, 1)) != 0;
    var signed := Shl(Sub(Shl(1, Sub(32, index)), 1), index);
    var mask := Sub(Shl(1, index), 1);
    if isSigned then OrW(And(data, mask), signed) else And(data, mask)
  }

  function Flag(b: bool): Word { if b then 1 else 0 }

  /** Ones in `x` from bit `k - 1` downwards until the first zero. */
  function LeadingOnesBelow(x: Word, k: nat): (n: nat)
    requires k <= 32
    ensures n <= k
    decreases k
  {
    if k > 0 && x / Pow2(k - 1) % 2 == 1 then 1 + LeadingOnesBelow(x, k - 1) else 0
  }

  function LeadingOnes(x: Word): Word { LeadingOnesBelow(x, 32) }

  /** The R-type function an immediate opcode stands for. */
  function AluFunction(insn: Word): Word {
    match Opcode(insn)
    case 8 => 0x20      // addi
    case 9 => 0x21      // addiu
    case 0xA => 0x2A    // slti
    case 0xB => 0x2B    // sltiu
    case 0xC => 0x24    // andi
    case 0xD => 0x25    // ori
    case 0xE => 0x26    // xori
    case _ => Funct(insn)
  }

  /** Functions of R-type and immediate instructions. */
  function Arithmetic(fun: Word, shamt: Word, rs: Word, rt: Word): Result<Word> {
    match fun
    case 0x00 => Ok(Shl(rt, shamt))                                   // sll
    case 0x02 => Ok(Shr(rt, shamt))                                   // srl
    case 0x03 => Ok(SignExtend(Shr(rt, shamt), Sub(32, shamt)))       // sra
    case 0x04 => Ok(Shl(rt, rs % 32))                                 // sllv
    case 0x06 => Ok(Shr(rt, rs % 32))                                 // srlv
    case 0x07 => Ok(SignExtend(Shr(rt, rs), Sub(32, rs)))             // srav
    case 0x20 => Ok(Add(rs, rt))                                      // add
    case 0x21 => Ok(Add(rs, rt))                                      // addu
    case 0x22 => Ok(Sub(rs, rt))                                      // sub
    case 0x23 => Ok(Sub(rs, rt))                                      // subu
    case 0x24 => Ok(And(rs, rt))                                      // and
    case 0x25 => Ok(OrW(rs, rt))                                      // or
    case 0x26 => Ok(XorW(rs, rt))                                     // xor
    case 0x27 => Ok(Not(OrW(rs, rt)))                                 // nor
    case 0x2A => Ok(Flag(Signed(rs) < Signed(rt)))                    // slt
    case 0x2B => Ok(Flag(rs < rt))                                    // sltu
    case _ =>
      // jumps, moves, syscall, sync and the HI/LO group pass rs through
      if 0x08 <= fun <= 0x0C || 0x0F <= fun <= 0x13 || 0x18 <= fun <= 0x1B then Ok(rs)
      else Err(InvalidFunction)
  }

  function Special2(fun: Word, rs: Word, rt: Word): Result<Word> {
    match fun
    case 0x02 => Ok(Unsigned(Signed(rs) * Signed(rt)))                // mul
    case 0x20 => Ok(LeadingOnes(Not(rs)))                             // clz
    case 0x21 => Ok(LeadingOnes(rs))                                  // clo
    case _ => Err(InvalidFunction)
  }

  /** Loads, stores and `lui`: `rs` is the effective address, `mem` the aligned word there. */
  function LoadStore(opcode: Word, rs: Word, rt: Word, mem: Word): Result<Word> {
    var byteShift := 24 - 8 * (rs % 4);
    var halfShift := 16 - 16 * (rs / 2 % 2);
    match opcode
    case 0x0F => Ok(Shl(rt, 16))                                      // lui
    case 0x20 => Ok(SignExtend(And(Shr(mem, byteShift), 0xFF), 8))    // lb
    case 0x21 => Ok(SignExtend(And(Shr(mem, halfShift), 0xFFFF), 16)) // lh
    case 0x22 =>                                                      // lwl
      var sl := 8 * (rs % 4);
      Ok(OrW(And(rt, Not(Shl(0xFFFF_FFFF, sl))), Shl(mem, sl)))
    case 0x23 => Ok(mem)                                              // lw
    case 0x24 => Ok(And(Shr(mem, byteShift), 0xFF))                   // lbu
    case 0x25 => Ok(And(Shr(mem, halfShift), 0xFFFF))                 // lhu
    case 0x26 =>                                                      // lwr
      Ok(OrW(And(rt, Not(Shr(0xFFFF_FFFF, byteShift))), Shr(mem, byteShift)))
    case 0x28 =>                                                      // sb
      var mask := XorW(0xFFFF_FFFF, Shl(0xFF, byteShift));
      Ok(OrW(And(mem, mask), Shl(And(rt, 0xFF), byteShift)))
    case 0x29 =>                                                      // sh
      var mask := XorW(0xFFFF_FFFF, Shl(0xFFFF, halfShift));
      Ok(OrW(And(mem, mask), Shl(And(rt, 0xFFFF), halfShift)))
    case 0x2A =>                                                      // swl
      var sr := 8 * (rs % 4);
      Ok(OrW(And(mem, Not(Shr(0xFFFF_FFFF, sr))), Shr(rt, sr)))
    case 0x2B => Ok(rt)                                               // sw
    case 0x2E =>                                                      // swr
      Ok(OrW(And(mem, Not(Shl(0xFFFF_FFFF, byteShift))), Shl(rt, byteShift)))
    case 0x30 => Ok(mem)                                              // ll
    case 0x38 => Ok(rt)                                               // sc
    case _ => Err(InvalidOpcode)
  }

  function AluResult(insn: Word, rs: Word, rt: Word, mem: Word): Result<Word> {
    var opcode := Opcode(insn);
    if opcode == 0 || 8 <= opcode < 0xF then Arithmetic(AluFunction(insn), ShamtField(insn), rs, rt)
    else if opcode == 0x1C then Special2(Funct(insn), rs, rt)
    else LoadStore(opcode, rs, rt, mem)
  }

  lemma ModDouble(x: nat, p: int)
    requires p >= 1
    ensures x % (2 * p) == x / p % 2 * p + x % p
  {
    var d, lo := x / p, x % p;
    assert x == p * d + lo;
    if d % 2 == 0 {
      assert p * (2 * (d / 2)) == (2 * p) * (d / 2);
      DivModUnique(x, 2 * p, d / 2, lo);
    } else {
      assert p * (2 * (d / 2) + 1) == (2 * p) * (d / 2) + p;
      DivModUnique(x, 2 * p, d / 2, p + lo);
    }
  }

  lemma TopBitArithmetic(hi: int, lo: int, p: int, q: int)
    requires 0 <= hi <= 1 && 0 <= lo < p && q >= 1 && p * q == 0x8000_0000
    ensures (hi * p + lo) * q == hi * 0x8000_0000 + lo * q && 0 <= lo * q < 0x8000_0000
  {
    MulNonNegative(q, lo);
    MulDistance(q, p, lo);
    if hi == 1 {
      assert (p + lo) * q == p * q + lo * q;
    }
  }

  /** Shifting left keeps exposing the next lower bit at the top. */
  lemma ShiftedTopBit(x: Word, k: nat)
    requires k < 32
    ensures var shifted := x % Pow2(32 - k) * Pow2(k);
      && 0 <= shifted < WORD_LIMIT
      && (shifted >= 0x8000_0000 <==> x / Pow2(31 - k) % 2 == 1)
      && shifted * 2 % WORD_LIMIT == x % Pow2(31 - k) * Pow2(k + 1)
  {
    hide Pow2;
    var p, q := Pow2(31 - k), Pow2(k);
    ShiftPowers(k);
    ModDouble(x, p);
    TopBitArithmetic(x / p % 2, x % p, p, q);
    assert x % p * (2 * q) == 2 * (x % p * q);
  }

  lemma ShiftPowers(k: nat)
    requires k < 32
    ensures Pow2(32 - k) == 2 * Pow2(31 - k) && Pow2(k + 1) == 2 * Pow2(k)
    ensures Pow2(31 - k) * Pow2(k) == 0x8000_0000 && Pow2(k) * Pow2(31 - k) == 0x8000_0000
  {
    Pow2Sum(31 - k, k);
    Pow2At32();
    assert Pow2(32) == 2 * Pow2(31);
  }

  /** The `clz`/`clo` loop: shift left while the top bit is set. It ends within 32 rounds. */
  method CountLeadingOnes(x: Word) returns (i: Word)
    ensures i == LeadingOnes(x) && i <= 32
  {
    hide LeadingOnesBelow;
    var rs := x;
    i := 0;
    assert Pow2(0) == 1;
    Pow2At32();
    while rs >= 0x8000_0000
      invariant i <= 32 && rs == if i < 32 then x % Pow2(32 - i) * Pow2(i) else 0
      invariant LeadingOnes(x) == i + LeadingOnesBelow(x, 32 - i)
      decreases 32 - i
    {
      ShiftedTopBit(x, i);
      LeadingOnesStep(x, 32 - i);
      if i == 31 {
        assert Pow2(0) == 1;
      }
      rs := rs * 2 % WORD_LIMIT;
      i := i + 1;
    }
    if i < 32 {
      ShiftedTopBit(x, i);
    }
    LeadingOnesStep(x, 32 - i);
  }

  lemma LeadingOnesStep(x: Word, k: nat)
    requires k <= 32
    ensures LeadingOnesBelow(x, k) ==
      if k > 0 && x / Pow2(k - 1) % 2 == 1 then 1 + LeadingOnesBelow(x, k - 1) else 0
  {
  }

  /** The ALU as run by the machine: only the bit count is a loop. */
  method Execute(insn: Word, rs: Word, rt: Word, mem: Word) returns (r: Result<Word>)
    ensures r == AluResult(insn, rs, rt, mem)
  {
    hide LeadingOnes, Arithmetic, LoadStore;
    if Opcode(insn) == 0x1C && (Funct(insn) == 0x20 || Funct(insn) == 0x21) {
      var count := CountLeadingOnes(if Funct(insn) == 0x20 then Not(rs) else rs);
      return Ok(count);
    }
    r := AluResult(insn, rs, rt, mem);
  }
}
