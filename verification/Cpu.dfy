/** One instruction as a function on values: the register state, the instruction word, and
    what the step may look at besides them - the word at its one memory address and the
    preimage it reads. The methods of the machine are proved to compute this function, and
    the stateless replay runs it on words taken from Merkle proofs. */
module Cpu {
  import opened Words
  import opened Results
  import opened MerkleTree
  import opened Alu

  type Registers = s: seq<Word> | |s| == 32 witness seq(32, _ => 0)

  /** Everything in the machine state but the memory and the pending hint bytes. */
  datatype Cpu = Cpu(
    preimageKey: Digest,
    preimageOffset: Word,
    pc: Word,
    nextPc: Word,
    lo: Word,
    hi: Word,
    heap: Word,
    exitCode: Byte,
    exited: bool,
    step: Long,
    registers: Registers)

  /** What an instruction sees of the outside: the aligned word at its address, the preimage
      with its 8-byte length prefix, and whether its output side succeeded. */
  datatype Env = Env(word: Word, preimage: Result<seq<Byte>>, output: Result<()>)

  /** The registers afterwards and the word stored at the accessed address, if any. */
  datatype Effect = Effect(cpu: Cpu, store: Option<Word>)

  const EBADF: Word := 0x9
  const EINVAL: Word := 0x16

  /** `a & 0xFFFFFFFC`. */
  function Aligned(a: Word): (r: Word)
    ensures r % 4 == 0
  {
    a - a % 4
  }

  /** Moves on to the next instruction. */
  function Advance(c: Cpu): Cpu { c.(pc := c.nextPc, nextPc := Add(c.nextPc, 4)) }

  function SetRegister(c: Cpu, reg: Word, value: Word): Cpu
    requires reg < 32
  {
    c.(registers := c.registers[reg := value])
  }

  function WriteBack(c: Cpu, reg: Word, value: Word, conditional: bool): Result<Cpu> {
    if reg >= 32 then Err(InvalidRegister)
    else Ok(Advance(if reg != 0 && conditional then SetRegister(c, reg, value) else c))
  }

  function Jump(c: Cpu, linkReg: Word, dest: Word): Result<Cpu>
    requires linkReg < 32
  {
    if c.nextPc != Add(c.pc, 4) then Err(JumpInDelaySlot)
    else
      var moved := c.(pc := c.nextPc, nextPc := dest);
      Ok(if linkReg != 0 then SetRegister(moved, linkReg, Add(c.pc, 8)) else moved)
  }

  function BranchTaken(opcode: Word, rtField: Word, rs: Word, rt: Word): bool {
    match opcode
    case 4 => rs == rt                                   // beq
    case 5 => rs != rt                                   // bne
    case 6 => Signed(rs) <= 0                            // blez
    case 7 => Signed(rs) > 0                             // bgtz
    case 1 =>                                            // regimm: bltz, bgez
      if rtField == 0 then Signed(rs) < 0 else if rtField == 1 then Signed(rs) >= 0 else false
    case _ => false
  }

  function Branch(c: Cpu, opcode: Word, insn: Word, rtReg: Word, rs: Word): Result<Cpu>
    requires rtReg < 32
  {
    if c.nextPc != Add(c.pc, 4) then Err(BranchInDelaySlot)
    else if BranchTaken(opcode, RtField(insn), rs, c.registers[rtReg]) then
      Ok(c.(pc := c.nextPc, nextPc := Add(Add(c.pc, 4), Shl(SignExtend(ImmField(insn), 16), 2))))
    else Ok(c.(pc := c.nextPc, nextPc := Add(c.nextPc, 4)))
  }

  /** Truncated signed division; dividing by zero and MIN by -1 panic. */
  function TruncDiv(x: int, y: int): int
    requires y != 0
  {
    if (x >= 0) == (y > 0) then Magnitude(x) / Magnitude(y) else -(Magnitude(x) / Magnitude(y))
  }

  function TruncRem(x: int, y: int): int
    requires y != 0
  {
    if x >= 0 then Magnitude(x) % Magnitude(y) else -(Magnitude(x) % Magnitude(y))
  }

  function Magnitude(x: int): nat { if x >= 0 then x else -x }

  /** Unsigned 64-bit value of an `i32` widened to `i64` and cast to `u64`. */
  function Widen(w: Word): Long { Signed(w) % LONG_LIMIT }

  function SetHiLo(c: Cpu, acc: Long): Cpu { c.(hi := acc / WORD_LIMIT, lo := acc % WORD_LIMIT) }

  /** The HI/LO registers after the instruction, and the value for the destination register. */
  function HiLoUpdate(c: Cpu, fun: Word, rs: Word, rt: Word): Result<(Cpu, Word)> {
    match fun
    case 0x10 => Ok((c, c.hi))                                                    // mfhi
    case 0x11 => Ok((c.(hi := rs), 0))                                            // mthi
    case 0x12 => Ok((c, c.lo))                                                    // mflo
    case 0x13 => Ok((c.(lo := rs), 0))                                            // mtlo
    case 0x18 => Ok((SetHiLo(c, Widen(rs) * Widen(rt) % LONG_LIMIT), 0))          // mult
    case 0x19 => Ok((SetHiLo(c, rs * rt % LONG_LIMIT), 0))                        // multu
    case 0x1A =>                                                                  // div
      if rt == 0 || (Signed(rs) == -0x8000_0000 && Signed(rt) == -1) then Err(Panic)
      else Ok((c.(hi := Unsigned(TruncRem(Signed(rs), Signed(rt))), lo := Unsigned(TruncDiv(Signed(rs), Signed(rt)))), 0))
    case 0x1B =>                                                                  // divu
      if rt == 0 then Err(Panic) else Ok((c.(hi := rs % rt, lo := rs / rt), 0))
    case _ => Ok((c, 0))
  }

  function HiLo(c: Cpu, fun: Word, rs: Word, rt: Word, storeReg: Word): Result<Cpu>
    requires storeReg < 32
  {
    var update :- HiLoUpdate(c, fun, rs, rt);
    Ok(Advance(if storeReg != 0 then SetRegister(update.0, storeReg, update.1) else update.0))
  }

  /** Page-rounded size of an `mmap` request. */
  function RoundToPage(size: Word): Word {
    if size % 4096 != 0 then Add(size, 4096 - size % 4096) else size
  }

  /** How a syscall ends: results in `v0` and the error register, then the next instruction. */
  function Return(c: Cpu, v0: Word, v1: Word): Cpu {
    Advance(SetRegister(SetRegister(c, 2, v0), 7, v1))
  }

  function Min(x: int, y: int): int { if x < y then x else y }

  /** Number of preimage bytes one read delivers: what is left, at most 32, at most the rest of
      the word, at most the requested count. */
  function PreimageReadCount(blob: seq<Byte>, offset: Word, address: Word, count: Word): (n: Word)
    requires offset <= |blob|
    ensures n <= 4 - address % 4 && offset + n <= |blob| && n <= count
  {
    Min(Min(Min(|blob| - offset, 32), 4 - address % 4), count)
  }

  /** The word with preimage bytes spliced in at the unaligned position. */
  function PreimageWord(word: Word, blob: seq<Byte>, offset: Word, address: Word, n: Word): Word
    requires offset + n <= |blob| && address % 4 + n <= 4
  {
    var bytes := BytesOf(word);
    var at := address % 4;
    WordOf(bytes[..at] + blob[offset..offset + n] + bytes[at + n..])
  }

  function PreimageRead(c: Cpu, word: Word, preimage: Result<seq<Byte>>): Result<Effect> {
    var blob :- preimage;
    if c.preimageOffset > |blob| then Err(Panic)
    else
      var a1, a2 := c.registers[5], c.registers[6];
      var n := PreimageReadCount(blob, c.preimageOffset, a1, a2);
      var value := PreimageWord(word, blob, c.preimageOffset, a1, n);
      Ok(Effect(Return(c.(preimageOffset := Add(c.preimageOffset, n)), n, 0), Some(value)))
  }

  /** Number of key bytes one write accepts. */
  function KeyWriteCount(address: Word, count: Word): (n: Word)
    ensures n <= 4 - address % 4 && n <= count
  {
    if 4 - address % 4 < count then 4 - address % 4 else count
  }

  /** The key shifted left by the accepted bytes. */
  function ShiftKey(key: Digest, bytes: seq<Byte>): Digest
    requires |bytes| <= 32
  {
    key[|bytes|..] + bytes
  }

  function KeyBytes(word: Word, address: Word, n: Word): (bytes: seq<Byte>)
    requires address % 4 + n <= 4
    ensures |bytes| == n
  {
    BytesOf(word)[address % 4..address % 4 + n]
  }

  function KeyWrite(c: Cpu, word: Word): Effect {
    var a1, a2 := c.registers[5], c.registers[6];
    var n := KeyWriteCount(a1, a2);
    var key := ShiftKey(c.preimageKey, KeyBytes(word, a1, n));
    Effect(Return(c.(preimageKey := key, preimageOffset := 0), n, 0), None)
  }

  function Fcntl(c: Cpu): Cpu {
    var fd, command := c.registers[4] % 256, c.registers[5];
    if command != 3 then Return(c, 0xFFFF_FFFF, EINVAL)
    else if fd == 0 || fd == 5 || fd == 3 then Return(c, 0, 0)
    else if fd == 1 || fd == 2 || fd == 6 || fd == 4 then Return(c, 1, 0)
    else Return(c, 0xFFFF_FFFF, EBADF)
  }

  const MMAP: Word := 4090
  const BRK: Word := 4045
  const CLONE: Word := 4120
  const EXIT_GROUP: Word := 4246
  const READ: Word := 4003
  const WRITE: Word := 4004
  const FCNTL: Word := 4055

  function Mmap(c: Cpu): Cpu {
    if c.registers[4] == 0 then
      Return(c.(heap := Add(c.heap, RoundToPage(c.registers[5]))), c.heap, 0)
    else Return(c, c.registers[4], 0)
  }

  function ReadCall(c: Cpu, env: Env): Result<Effect> {
    match c.registers[4] % 256
    case 0 => Ok(Effect(Return(c, 0, 0), None))
    case 5 => PreimageRead(c, env.word, env.preimage)
    case 3 => Ok(Effect(Return(c, c.registers[6], 0), None))
    case _ => Ok(Effect(Return(c, 0xFFFF_FFFF, EBADF), None))
  }

  function WriteCall(c: Cpu, env: Env): Result<Effect> {
    var fd := c.registers[4] % 256;
    if fd == 1 || fd == 2 || fd == 4 then
      var _ :- env.output;
      Ok(Effect(Return(c, c.registers[6], 0), None))
    else if fd == 6 then Ok(KeyWrite(c, env.word))
    else Ok(Effect(Return(c, 0xFFFF_FFFF, EBADF), None))
  }

  /** The calls that involve neither memory nor the outside, and all unknown ones. */
  function LocalCall(c: Cpu): Cpu {
    match c.registers[2]
    case 4090 => Mmap(c)
    case 4045 => Return(c, 0x4000_0000, 0)
    case 4120 => Return(c, 1, 0)
    case 4055 => Fcntl(c)
    case _ => Return(c, 0, 0)
  }

  function Syscall(c: Cpu, env: Env): Result<Effect> {
    match c.registers[2]
    case 4246 => Ok(Effect(c.(exited := true, exitCode := c.registers[4] % 256), None))
    case 4003 => ReadCall(c, env)
    case 4004 => WriteCall(c, env)
    case _ => Ok(Effect(LocalCall(c), None))
  }

  /** The second operand: a register or an extended immediate. */
  function Operand(c: Cpu, insn: Word): Word {
    var opcode := Opcode(insn);
    if opcode == 0 || opcode == 0x1C then c.registers[RtField(insn)]
    else if opcode < 20 then
      if 0x0C <= opcode <= 0x0E then ImmField(insn) else SignExtend(ImmField(insn), 16)
    else if opcode >= 0x28 || opcode == 0x22 || opcode == 0x26 then c.registers[RtField(insn)]
    else 0
  }

  function DestReg(insn: Word): Word {
    if Opcode(insn) == 0 || Opcode(insn) == 0x1C then RdField(insn) else RtField(insn)
  }

  /** Effective address of a load or store. */
  function EffectiveAddress(c: Cpu, insn: Word): Word {
    Add(c.registers[RsField(insn)], SignExtend(ImmField(insn), 16))
  }

  predicate IsJump(insn: Word) { 2 <= Opcode(insn) <= 3 }

  predicate IsBranch(insn: Word) { 4 <= Opcode(insn) < 8 || Opcode(insn) == 1 }

  predicate IsStore(insn: Word) { Opcode(insn) >= 0x28 && Opcode(insn) != 0x30 }

  predicate IsSyscall(insn: Word) { Opcode(insn) == 0 && Funct(insn) == 0x0C }

  predicate FetchesPreimage(c: Cpu) { c.registers[2] == READ && c.registers[4] % 256 == 5 }

  predicate ShiftsKey(c: Cpu) { c.registers[2] == WRITE && c.registers[4] % 256 == 6 }

  predicate EmitsOutput(c: Cpu) {
    var fd := c.registers[4] % 256;
    c.registers[2] == WRITE && (fd == 1 || fd == 2 || fd == 4)
  }

  function SyscallAccess(c: Cpu): (r: Option<Word>)
    ensures r.Some? ==> r.value % 4 == 0
  {
    if FetchesPreimage(c) || ShiftsKey(c) then Some(Aligned(c.registers[5])) else None
  }

  /** The one aligned address an instruction accesses besides its own, if any. */
  function Access(c: Cpu, insn: Word): (r: Option<Word>)
    ensures r.Some? ==> r.value % 4 == 0
  {
    if Opcode(insn) >= 0x20 then Some(Aligned(EffectiveAddress(c, insn)))
    else if IsSyscall(insn) then SyscallAccess(c)
    else None
  }

  /** R-type instructions with function codes 8 to 0x1B that do not end in a plain write-back. */
  function Special(c: Cpu, insn: Word, rs: Word, rt: Word, val: Word, env: Env): Result<Effect> {
    var fun, rd := Funct(insn), RdField(insn);
    if 8 <= fun <= 9 then
      var next :- Jump(c, if fun == 9 then rd else 0, rs);
      Ok(Effect(next, None))
    else if fun == 0x0A then
      var next :- WriteBack(c, rd, val, rt == 0);
      Ok(Effect(next, None))
    else if fun == 0x0B then
      var next :- WriteBack(c, rd, val, rt != 0);
      Ok(Effect(next, None))
    else if fun == 0x0C then Syscall(c, env)
    else if 0x10 <= fun <= 0x1B then
      var next :- HiLo(c, fun, rs, rt, rd);
      Ok(Effect(next, None))
    else
      var next :- WriteBack(c, rd, val, true);
      Ok(Effect(next, None))
  }

  /** Store or write back the computed value. `sc` also sets its source register to one. */
  function WriteResult(c: Cpu, insn: Word, val: Word): Result<Effect> {
    var linked := if Opcode(insn) == 0x38 && RtField(insn) != 0 then SetRegister(c, RtField(insn), 1) else c;
    var next :- WriteBack(linked, if IsStore(insn) then 0 else DestReg(insn), val, true);
    Ok(Effect(next, if IsStore(insn) then Some(val) else None))
  }

  /** ALU, loads and stores. */
  function Compute(c: Cpu, insn: Word, env: Env): Result<Effect> {
    var opcode := Opcode(insn);
    var rt := Operand(c, insn);
    var rs := if opcode >= 0x20 then EffectiveAddress(c, insn) else c.registers[RsField(insn)];
    var val :- AluResult(insn, rs, rt, if opcode >= 0x20 then env.word else 0);
    if opcode == 0 && 8 <= Funct(insn) < 0x1C then Special(c, insn, rs, rt, val, env)
    else WriteResult(c, insn, val)
  }

  /** One instruction, the step counter already advanced. */
  function Instruction(c: Cpu, insn: Word, env: Env): Result<Effect> {
    if IsJump(insn) then
      var target := c.nextPc / 0x1000_0000 * 0x1000_0000 + TargetField(insn) * 4;
      var next :- Jump(c, if Opcode(insn) == 3 then 31 else 0, target);
      Ok(Effect(next, None))
    else if IsBranch(insn) then
      var next :- Branch(c, Opcode(insn), insn, RtField(insn), c.registers[RsField(insn)]);
      Ok(Effect(next, None))
    else Compute(c, insn, env)
  }

  function CountStep(c: Cpu): Cpu { c.(step := (c.step + 1) % LONG_LIMIT) }

  /** An instruction stores only where it has an address. */
  lemma StoreHasAccess(c: Cpu, insn: Word, env: Env)
    requires Instruction(c, insn, env).Ok? && Instruction(c, insn, env).value.store.Some?
    ensures Access(c, insn).Some?
  {
  }

  /** A read or write call knows its descriptor. */
  predicate Serves(r: Result<Effect>) { r.Err? || r.value.cpu.registers[7] != EBADF }

  /** `fcntl` reports a descriptor as read-only exactly when the read call knows it, as
      write-only exactly when the write call does, and as bad when neither does; other
      commands than F_GETFL are refused. */
  lemma FcntlAgrees(c: Cpu, env: Env)
    ensures c.registers[5] == 3 ==>
      var v0, v1 := Fcntl(c).registers[2], Fcntl(c).registers[7];
      && (v0 == 0 <==> Serves(ReadCall(c, env)))
      && (v0 == 1 <==> Serves(WriteCall(c, env)))
      && (v1 == (if Serves(ReadCall(c, env)) || Serves(WriteCall(c, env)) then 0 else EBADF))
    ensures c.registers[5] != 3 ==> Fcntl(c).registers[2] == 0xFFFF_FFFF && Fcntl(c).registers[7] == EINVAL
  {
    hide PreimageReadCount, PreimageWord, ShiftKey, KeyBytes, Add;
  }
}
