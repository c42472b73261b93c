/** Loads and stores by their effect on the whole machine: which bytes of memory a register
    receives, which bytes are replaced, and that nothing else changes. */
module MemoryLaws {
  import opened Words
  import opened Results
  import opened UpperTree
  import opened Alu
  import opened Cpu
  import opened Machine
  import opened ArithmeticLaws
  import opened NarrowAccess
  import opened Assembly
  import opened RegisterLaws

  /** Base register plus signed offset. */
  function Effective(m: Machine, rs: Reg, imm: Half): Word { (m.cpu.registers[rs] + Offset(imm)) % 0x1_0000_0000 }

  /** The word access that serves an address: its two low bits are ignored. */
  function WordAddress(a: Word): (lo: Word)
    ensures lo % 4 == 0 && lo + 4 <= MEMORY_SIZE
  {
    a / 4 * 4
  }

  /** Memory afterwards holds the given bytes at an address and is otherwise the same. */
  ghost predicate Replaces(contents: Flat, contents': Flat, a: nat, bytes: seq<Byte>) {
    && a + |bytes| <= MEMORY_SIZE && contents'[a..a + |bytes|] == bytes
    && forall i | 0 <= i < MEMORY_SIZE && !(a <= i < a + |bytes|) :: contents'[i] == contents[i]
  }

  lemma SpliceReplaces(contents: Flat, a: nat, bytes: seq<Byte>)
    requires a + |bytes| <= MEMORY_SIZE
    ensures Replaces(contents, Splice(contents, a, bytes), a, bytes)
  {
  }

  /** The step replaces bytes of memory, and its registers become the given ones. */
  ghost predicate Stores(host: Host, m: Machine, c: Cpu, a: nat, bytes: seq<Byte>) {
    && MachineStep(host, m).Ok?
    && var m' := MachineStep(host, m).value;
       m' == m.(cpu := c, contents := m'.contents) && Replaces(m.contents, m'.contents, a, bytes)
  }

  predicate IsLoad(op: Code) { 0x20 <= op < 0x28 || op == 0x30 }

  lemma AddressOf(m: Machine, rs: Reg, rt: Reg, imm: Half, op: Code)
    requires op >= 0x20
    ensures var insn, a := IType(op, rs, rt, imm), Effective(m, rs, imm);
      EffectiveAddress(m.cpu, insn) == a && Access(m.cpu, insn) == Some(WordAddress(a)) && WordAddress(a) == Aligned(a)
  {
    hide IType, SignExtend, Offset;
    IFields(op, rs, rt, imm);
    ImmediateExtended(imm);
    AddOffset(m.cpu.registers[rs], Offset(imm));
  }

  lemma AddOffset(x: Word, d: int)
    ensures Add(x, d % WORD_LIMIT) == (x + d) % WORD_LIMIT
  {
    var q := d / WORD_LIMIT;
    assert d == WORD_LIMIT * q + d % WORD_LIMIT;
    ModAddMultiple(x + d % WORD_LIMIT, WORD_LIMIT, q);
  }

  lemma LoadEffect(c: Cpu, insn: Word, env: Env, v: Word)
    requires IsLoad(Opcode(insn)) && LoadStore(Opcode(insn), EffectiveAddress(c, insn), Operand(c, insn), env.word) == Ok(v)
    ensures Instruction(c, insn, env) == Ok(Effect(Advance(Put(c, RtField(insn), v)), None))
  {
    hide LoadStore, Operand, Advance, Branch, Jump, Special, EffectiveAddress;
  }

  /** The step of a load, given the value that the ALU extracts. */
  lemma LoadStep(host: Host, m: Machine, op: Code, rs: Reg, rt: Reg, imm: Half, v: Word)
    requires At(m, IType(op, rs, rt, imm)) && IsLoad(op)
    requires var a := Effective(m, rs, imm);
      forall y: Word :: LoadStore(op, a, y, WordAt(m.contents, WordAddress(a))) == Ok(v)
    ensures Puts(host, m, rt, v)
  {
    hide LoadStore, At, IType, MachineStep, Instruction, Operand, Access, EffectiveAddress, WordAt, WordAddress, Effective;
    var insn, c := IType(op, rs, rt, imm), CountStep(m.cpu);
    IFields(op, rs, rt, imm);
    AddressOf(m.(cpu := c), rs, rt, imm, op);
    SameAddress(m, rs, imm);
    PlainStep(host, m, insn);
    LoadEffect(c, insn, Outside(host, m, insn), v);
  }

  lemma SameAddress(m: Machine, rs: Reg, imm: Half)
    ensures Effective(m.(cpu := CountStep(m.cpu)), rs, imm) == Effective(m, rs, imm)
  {
  }

  lemma StoreEffect(c: Cpu, insn: Word, env: Env, v: Word)
    requires IsStore(insn)
    requires LoadStore(Opcode(insn), EffectiveAddress(c, insn), c.registers[RtField(insn)], env.word) == Ok(v)
    ensures Instruction(c, insn, env) ==
      Ok(Effect(Advance(if Opcode(insn) == 0x38 then Put(c, RtField(insn), 1) else c), Some(v)))
  {
    hide LoadStore, Advance, Branch, Jump, Special, EffectiveAddress, SignExtend;
  }

  /** The step of a store, given the word that the ALU stores. */
  lemma StoreStep(host: Host, m: Machine, op: Code, rs: Reg, rt: Reg, imm: Half, v: Word)
    requires At(m, IType(op, rs, rt, imm)) && op >= 0x28 && op != 0x30
    requires var a := Effective(m, rs, imm);
      LoadStore(op, a, m.cpu.registers[rt], WordAt(m.contents, WordAddress(a))) == Ok(v)
    ensures MachineStep(host, m) == Ok(m.(
      cpu := if op == 0x38 then Put(Forward(m.cpu), rt, 1) else Forward(m.cpu),
      contents := WriteWord(m.contents, WordAddress(Effective(m, rs, imm)), v)))
  {
    hide LoadStore, At, IType, MachineStep, Instruction, Access, EffectiveAddress, WordAt, WordAddress, Effective, WriteWord;
    var insn, c := IType(op, rs, rt, imm), CountStep(m.cpu);
    IFields(op, rs, rt, imm);
    AddressOf(m.(cpu := c), rs, rt, imm, op);
    SameAddress(m, rs, imm);
    PlainStep(host, m, insn);
    StoreEffect(c, insn, Outside(host, m, insn), v);
  }

  /** The word cases of the ALU. */
  lemma WordOps(a: Word, y: Word, mem: Word)
    ensures LoadStore(0x23, a, y, mem) == LoadStore(0x30, a, y, mem) == Ok(mem)
    ensures LoadStore(0x2B, a, y, mem) == LoadStore(0x38, a, y, mem) == Ok(y)
  {
    hide And, Shl, Shr, OrW, XorW, SignExtend;
  }

  /** `lw` and `ll` put the big-endian word of the four bytes into the destination. */
  lemma LoadWordLaw(host: Host, m: Machine, linked: bool, rs: Reg, rt: Reg, imm: Half)
    requires At(m, IType(if linked then 0x30 else 0x23, rs, rt, imm))
    ensures Puts(host, m, rt, BigEndian(m.contents, WordAddress(Effective(m, rs, imm))))
  {
    hide LoadStore, At, IType, Puts, Effective, WordAddress, WordAt, BigEndian;
    var a := Effective(m, rs, imm);
    WordIsBigEndian(m.contents, WordAddress(a));
    forall y: Word
      ensures LoadStore(0x23, a, y, WordAt(m.contents, WordAddress(a))) == Ok(WordAt(m.contents, WordAddress(a)))
      ensures LoadStore(0x30, a, y, WordAt(m.contents, WordAddress(a))) == Ok(WordAt(m.contents, WordAddress(a)))
    {
      WordOps(a, y, WordAt(m.contents, WordAddress(a)));
    }
    LoadStep(host, m, if linked then 0x30 else 0x23, rs, rt, imm, WordAt(m.contents, WordAddress(a)));
  }

  /** Memory after a word store: the four bytes of the value, highest first. */
  lemma WordStored(contents: Flat, a: Word, v: Word)
    requires a % 4 == 0
    ensures Replaces(contents, WriteWord(contents, a, v), a, BytesOf(v))
    ensures BigEndian(WriteWord(contents, a, v), a) == v
  {
    hide Replaces, Splice, WordOf, BytesOf;
    SpliceReplaces(contents, a, BytesOf(v));
    WordIsBigEndian(WriteWord(contents, a, v), a);
    ReplacedSlice(contents, WriteWord(contents, a, v), a, BytesOf(v));
    WordRoundTrip(v);
  }

  lemma ReplacedSlice(contents: Flat, contents': Flat, a: nat, bytes: seq<Byte>)
    requires Replaces(contents, contents', a, bytes)
    ensures a + |bytes| <= MEMORY_SIZE && contents'[a..a + |bytes|] == bytes
  {
  }

  /** `sw` and `sc` replace exactly those four bytes by the register's; afterwards the word there
      is the register. `sc` then sets its nonzero register to one. */
  lemma StoreWordLaw(host: Host, m: Machine, conditional: bool, rs: Reg, rt: Reg, imm: Half)
    requires At(m, IType(if conditional then 0x38 else 0x2B, rs, rt, imm))
    ensures var a, v := WordAddress(Effective(m, rs, imm)), m.cpu.registers[rt];
      && Stores(host, m, if conditional then Put(Forward(m.cpu), rt, 1) else Forward(m.cpu), a, BytesOf(v))
      && BigEndian(MachineStep(host, m).value.contents, a) == v
  {
    hide LoadStore, At, IType, MachineStep, Effective, WordAddress, WordAt, BigEndian, Replaces, WriteWord, BytesOf;
    var e, v := Effective(m, rs, imm), m.cpu.registers[rt];
    var a := WordAddress(e);
    WordOps(e, v, WordAt(m.contents, a));
    StoreStep(host, m, if conditional then 0x38 else 0x2B, rs, rt, imm, v);
    WordStored(m.contents, a, v);
  }

  /** A word loaded right after it was stored, through whatever registers, is the one stored. */
  lemma StoreThenLoadWord(host: Host, m: Machine, m1: Machine, m2: Machine, conditional: bool, linked: bool,
                          rs: Reg, rt: Reg, imm: Half, rs': Reg, rt': Reg, imm': Half)
    requires At(m, IType(if conditional then 0x38 else 0x2B, rs, rt, imm)) && MachineStep(host, m) == Ok(m1)
    requires At(m1, IType(if linked then 0x30 else 0x23, rs', rt', imm')) && MachineStep(host, m1) == Ok(m2)
    requires Effective(m1, rs', imm') == Effective(m, rs, imm) && rt' != 0
    ensures m2.cpu.registers[rt'] == m.cpu.registers[rt] && m2.contents == m1.contents
  {
    hide At, IType, MachineStep, Effective, WordAddress, BigEndian, Replaces, BytesOf;
    StoreWordLaw(host, m, conditional, rs, rt, imm);
    LoadWordLaw(host, m1, linked, rs', rt', imm');
  }

  lemma HalfIs(contents: Flat, a: Word)
    ensures HalfAddress(a) == a / 2 * 2 && HalfAddress(a) + 2 <= MEMORY_SIZE
    ensures var hi: int, lo: int := contents[HalfAddress(a)], contents[HalfAddress(a) + 1];
      HalfOf(contents[HalfAddress(a)..HalfAddress(a) + 2]) == hi * 0x100 + lo
  {
    HalfWhere(a);
    var half := contents[HalfAddress(a)..HalfAddress(a) + 2];
    assert half[0] == contents[HalfAddress(a)] && half[1] == contents[HalfAddress(a) + 1];
  }

  /** `lbu` and `lb` put the byte at the address, `lhu` and `lh` the two bytes of the halfword
      over it, into the destination: as an unsigned or as a signed number. */
  lemma LoadNarrowLaw(host: Host, m: Machine, rs: Reg, rt: Reg, imm: Half)
    ensures var a := Effective(m, rs, imm);
      var byte: int, hi: int := m.contents[a], m.contents[a / 2 * 2];
      && a / 2 * 2 + 1 < MEMORY_SIZE
      && var half := hi * 0x100 + m.contents[a / 2 * 2 + 1];
      && (At(m, IType(0x24, rs, rt, imm)) ==> Puts(host, m, rt, byte))
      && (At(m, IType(0x20, rs, rt, imm)) ==>
           Puts(host, m, rt, (if byte < 0x80 then byte else byte - 0x100) % 0x1_0000_0000))
      && (At(m, IType(0x25, rs, rt, imm)) ==> Puts(host, m, rt, half))
      && (At(m, IType(0x21, rs, rt, imm)) ==>
           Puts(host, m, rt, (if half < 0x8000 then half else half - 0x1_0000) % 0x1_0000_0000))
  {
    hide LoadStore, At, IType, Puts, Effective, WordAddress, WordAt, HalfOf, HalfAddress;
    var a := Effective(m, rs, imm);
    var mem := WordAt(m.contents, WordAddress(a));
    HalfIs(m.contents, a);
    NarrowValues(m.contents, a);
    forall op: Code, v: Word | At(m, IType(op, rs, rt, imm)) && IsLoad(op)
                               && (forall y: Word :: LoadStore(op, a, y, mem) == Ok(v))
      ensures Puts(host, m, rt, v)
    {
      LoadStep(host, m, op, rs, rt, imm, v);
    }
  }

  lemma NarrowValues(contents: Flat, a: Word)
    ensures HalfAddress(a) + 2 <= MEMORY_SIZE
    ensures forall y: Word :: LoadStore(0x24, a, y, WordAt(contents, WordAddress(a))) == Ok(contents[a])
    ensures forall y: Word :: LoadStore(0x20, a, y, WordAt(contents, WordAddress(a))) == Ok(Extend(contents[a], 0x100))
    ensures var half := HalfOf(contents[HalfAddress(a)..HalfAddress(a) + 2]);
      && (forall y: Word :: LoadStore(0x25, a, y, WordAt(contents, WordAddress(a))) == Ok(half))
      && (forall y: Word :: LoadStore(0x21, a, y, WordAt(contents, WordAddress(a))) == Ok(Extend(half, 0x1_0000)))
  {
    hide LoadStore, WordAt, HalfOf, HalfAddress, Extend;
    HalfWhere(a);
    assert WordAddress(a) == Aligned(a);
    forall y: Word
      ensures LoadStore(0x24, a, y, WordAt(contents, WordAddress(a))) == Ok(contents[a])
      ensures LoadStore(0x20, a, y, WordAt(contents, WordAddress(a))) == Ok(Extend(contents[a], 0x100))
      ensures LoadStore(0x25, a, y, WordAt(contents, WordAddress(a)))
        == Ok(HalfOf(contents[HalfAddress(a)..HalfAddress(a) + 2]))
      ensures LoadStore(0x21, a, y, WordAt(contents, WordAddress(a)))
        == Ok(Extend(HalfOf(contents[HalfAddress(a)..HalfAddress(a) + 2]), 0x1_0000))
    {
      NarrowLoads(contents, a, y);
    }
  }

  /** `sb` replaces the byte at the address, `sh` the two bytes of the halfword over it. */
  lemma StoreNarrowLaw(host: Host, m: Machine, rs: Reg, rt: Reg, imm: Half)
    ensures var a, v := Effective(m, rs, imm), m.cpu.registers[rt];
      && (At(m, IType(0x28, rs, rt, imm)) ==> Stores(host, m, Forward(m.cpu), a, [v % 0x100]))
      && (At(m, IType(0x29, rs, rt, imm)) ==> Stores(host, m, Forward(m.cpu), a / 2 * 2, [v / 0x100 % 0x100, v % 0x100]))
  {
    hide LoadStore, At, IType, MachineStep, Effective, WordAt, WriteWord, Replaces, HalfAddress, Splice;
    var a, v := Effective(m, rs, imm), m.cpu.registers[rt];
    assert WordAddress(a) == Aligned(a);
    HalfIs(m.contents, a);
    NarrowStores(m.contents, a, v);
    SpliceReplaces(m.contents, HalfAddress(a), HalfBytes(v));
    ByteReplaces(m.contents, a, v % 0x100);
    var mem := WordAt(m.contents, WordAddress(a));
    if At(m, IType(0x28, rs, rt, imm)) {
      StoreStep(host, m, 0x28, rs, rt, imm, LoadStore(0x28, a, v, mem).value);
    }
    if At(m, IType(0x29, rs, rt, imm)) {
      StoreStep(host, m, 0x29, rs, rt, imm, LoadStore(0x29, a, v, mem).value);
    }
  }

  lemma ByteReplaces(contents: Flat, a: Word, b: Byte)
    ensures Replaces(contents, contents[a := b], a, [b])
  {
  }
}
