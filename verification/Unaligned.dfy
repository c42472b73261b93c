/** Unaligned word access: the pairs `lwl`/`lwr` and `swl`/`swr` move exactly the four
    big-endian bytes at an arbitrary address. */
module Unaligned {
  import opened Words
  import opened Results
  import opened MerkleTree
  import opened UpperTree
  import opened Alu
  import opened Cpu
  import opened Machine
  import opened ArithmeticLaws

  /** Masking with the complement of a mask keeps the other bits. */
  lemma {:induction false} AndComplement(x: nat, y: nat, n: nat)
    requires x < Pow2(n) && y < Pow2(n)
    ensures And(x, y) + And(x, Pow2(n) - 1 - y) == x
    decreases n
  {
    if n > 0 && x > 0 {
      AndComplement(x / 2, y / 2, n - 1);
      assert (Pow2(n) - 1 - y) / 2 == Pow2(n - 1) - 1 - y / 2;
      assert (Pow2(n) - 1 - y) % 2 == 1 - y % 2;
    }
  }

  /** The byte shifts as literals. */
  predicate ByteShift(k: Word, p: int, q: int) {
    || (k == 0 && p == 1 && q == 0x1_0000_0000)
    || (k == 8 && p == 0x100 && q == 0x100_0000)
    || (k == 16 && p == 0x1_0000 && q == 0x1_0000)
    || (k == 24 && p == 0x100_0000 && q == 0x100)
  }

  lemma BytePowers(k: Word, p: int, q: int)
    requires ByteShift(k, p, q)
    ensures Pow2(k) == p && Pow2(32 - k) == q && p * q == WORD_LIMIT
  {
    assert Pow2(0) == 1 && Pow2(8) == 0x100;
    assert Pow2(16) == 0x1_0000;
    assert Pow2(24) == 0x100_0000;
    Pow2At32();
  }

  /** Shifts by whole bytes, and the masks built from them. */
  lemma ByteShifts(x: Word, k: Word, p: int, q: int)
    requires ByteShift(k, p, q)
    ensures Shl(x, k) == x % q * p && Shr(x, k) == x / p
    ensures And(x, Not(Shl(0xFFFF_FFFF, k))) == x % p
    ensures And(x, Not(Shr(0xFFFF_FFFF, k))) == x / q * q
  {
    hide Pow2, And;
    BytePowers(k, p, q);
    assert x * p % WORD_LIMIT == x % q * p by { ShiftModulo(x, p, q); }
    assert 0xFFFF_FFFF * p % WORD_LIMIT == (q - 1) * p by { ShiftModulo(0xFFFF_FFFF, p, q); AllOnes(p, q); }
    assert 0xFFFF_FFFF / p == q - 1 by { AllOnes(p, q); }
    assert Not(Shl(0xFFFF_FFFF, k)) == p - 1;
    AndLowMask(x, k);
    Pow2At32();
    AndComplement(x, q - 1, 32);
    AndLowMask(x, 32 - k);
  }

  lemma ShiftModulo(x: Word, p: int, q: int)
    requires p >= 1 && q >= 1 && p * q == WORD_LIMIT
    ensures x * p % WORD_LIMIT == x % q * p && 0 <= x % q * p < WORD_LIMIT
  {
    var d, r := x / q, x % q;
    assert x == q * d + r;
    assert x * p == WORD_LIMIT * d + r * p by {
      assert (q * d + r) * p == q * d * p + r * p;
      assert q * d * p == p * q * d;
    }
    MulNonNegative(r, p);
    MulDistance(p, q, r);
    assert r * p == p * r;
    DivModUnique(x * p, WORD_LIMIT, d, r * p);
  }

  lemma AllOnes(p: int, q: int)
    requires p >= 1 && q >= 1 && p * q == WORD_LIMIT
    ensures 0xFFFF_FFFF % q == q - 1 && 0xFFFF_FFFF / p == q - 1
    ensures (q - 1) * p == WORD_LIMIT - p
  {
    assert q * (p - 1) == WORD_LIMIT - q && p * (q - 1) == WORD_LIMIT - p;
    DivModUnique(0xFFFF_FFFF, q, p - 1, q - 1);
    DivModUnique(0xFFFF_FFFF, p, q - 1, p - 1);
  }

  /** Closed forms of the four partial accesses; `k` is eight times the position in the word. */
  lemma PartialLoads(rs: Word, rt: Word, mem: Word, p: int, q: int)
    requires ByteShift(8 * (rs % 4), p, q)
    ensures LoadStore(0x22, rs, rt, mem) == Ok(mem % q * p + rt % p)
    ensures LoadStore(0x2A, rs, rt, mem) == Ok(mem / q * q + rt / p)
  {
    hide And, Or, Shl, Shr, Pow2;
    var k := 8 * (rs % 4);
    BytePowers(k, p, q);
    ByteShifts(rt, k, p, q);
    ByteShifts(mem, k, p, q);
    OrDisjoint(rt % p, mem % q, k);
    AllOnes(p, q);
    var top := rt / p;
    QuotientBound(rt, p, q);
    OrDisjoint(top, mem / q, 32 - k);
    OrComm(mem / q * q, top);
    ShiftModulo(mem, p, q);
  }

  lemma QuotientBound(x: Word, p: int, q: int)
    requires p >= 1 && q >= 1 && p * q == WORD_LIMIT
    ensures 0 <= x / p < q
  {
    var d := x / p;
    assert x == p * d + x % p;
    MulDistance(p, d, q - 1);
    assert p * (q - 1) == WORD_LIMIT - p;
    DivShrinks(x, p);
  }

  /** The right-hand halves: `k` is the distance of the addressed byte from the word's end. */
  lemma PartialRight(rs: Word, rt: Word, mem: Word, p: int, q: int)
    requires ByteShift(24 - 8 * (rs % 4), p, q)
    ensures LoadStore(0x26, rs, rt, mem) == Ok(rt / q * q + mem / p)
    ensures LoadStore(0x2E, rs, rt, mem) == Ok(rt % q * p + mem % p)
  {
    hide And, Or, Shl, Shr, Pow2;
    var k := 24 - 8 * (rs % 4);
    BytePowers(k, p, q);
    ByteShifts(rt, k, p, q);
    ByteShifts(mem, k, p, q);
    QuotientBound(mem, p, q);
    OrDisjoint(mem / p, rt / q, 32 - k);
    OrComm(rt / q * q, mem / p);
    OrDisjoint(mem % p, rt % q, k);
    OrComm(mem % p, rt % q * p);
    ShiftModulo(rt, p, q);
  }

  /** Splitting a word after its first `j` bytes. */
  lemma WordParts(b: seq<Byte>)
    requires |b| == 4
    ensures var b0: int, b1: int, b2: int, b3: int := b[0], b[1], b[2], b[3];
      var w: int := WordOf(b);
      && w / 0x100_0000 == b0 && w % 0x100_0000 == b1 * 0x1_0000 + b2 * 0x100 + b3
      && w / 0x1_0000 == b0 * 0x100 + b1 && w % 0x1_0000 == b2 * 0x100 + b3
      && w / 0x100 == b0 * 0x1_0000 + b1 * 0x100 + b2 && w % 0x100 == b3
  {
    var b0: int, b1: int, b2: int, b3: int := b[0], b[1], b[2], b[3];
    DivModUnique(WordOf(b), 0x100_0000, b0, b1 * 0x1_0000 + b2 * 0x100 + b3);
    DivModUnique(WordOf(b), 0x1_0000, b0 * 0x100 + b1, b2 * 0x100 + b3);
    DivModUnique(WordOf(b), 0x100, b0 * 0x1_0000 + b1 * 0x100 + b2, b3);
  }

  /** The literal powers for a position in the word. */
  function Low(o: nat): int { if o == 0 then 1 else if o == 1 then 0x100 else if o == 2 then 0x1_0000 else 0x100_0000 }
  function High(o: nat): int { if o == 0 then 0x1_0000_0000 else if o == 1 then 0x100_0000 else if o == 2 then 0x1_0000 else 0x100 }

  /** Putting the tail of one word before the head of the next. */
  lemma JoinWords(x: seq<Byte>, y: seq<Byte>, o: nat)
    requires |x| == |y| == 4 && 1 <= o <= 3
    ensures WordOf(x) % High(o) * Low(o) + WordOf(y) / High(o) == WordOf(x[o..] + y[..o])
  {
    WordParts(x);
    WordParts(y);
  }

  /** Replacing the tail of a word by the head of another. */
  lemma ReplaceTail(x: seq<Byte>, r: seq<Byte>, o: nat)
    requires |x| == |r| == 4 && o <= 3
    ensures WordOf(x) / High(o) * High(o) + WordOf(r) / Low(o) == WordOf(x[..o] + r[..4 - o])
  {
    WordParts(x);
    WordParts(r);
    if o == 0 {
      DivModUnique(WordOf(x), 0x1_0000_0000, 0, WordOf(x));
      assert x[..o] + r[..4 - o] == r;
    }
  }

  /** Replacing the head of a word by the tail of another. */
  lemma ReplaceHead(y: seq<Byte>, r: seq<Byte>, o: nat)
    requires |y| == |r| == 4 && 1 <= o <= 3
    ensures WordOf(r) % Low(o) * High(o) + WordOf(y) % High(o) == WordOf(r[4 - o..] + y[o..])
  {
    WordParts(y);
    WordParts(r);
  }

  /** The value of the left and then right load from two neighbouring words. */
  lemma LoadPairValue(a: Word, rt: Word, x: seq<Byte>, y: seq<Byte>)
    requires |x| == |y| == 4 && a + 3 < WORD_LIMIT && (a % 4 == 0 ==> x == y)
    ensures var left := LoadStore(0x22, a, rt, WordOf(x));
      && left.Ok?
      && LoadStore(0x26, a + 3, left.value, WordOf(y)) == Ok(WordOf((x + y)[a % 4..a % 4 + 4]))
  {
    hide LoadStore, WordOf;
    var o := a % 4;
    var p, q := Low(o), High(o);
    PartialLoads(a, rt, WordOf(x), p, q);
    var left: Word := WordOf(x) % q * p + rt % p;
    if o == 0 {
      PartialRight(a + 3, left, WordOf(y), 1, 0x1_0000_0000);
      assert (x + y)[o..o + 4] == x;
    } else {
      PartialRight(a + 3, left, WordOf(y), q, p);
      DivModUnique(left, p, WordOf(x) % q, rt % p);
      JoinWords(x, y, o);
      assert (x + y)[o..o + 4] == x[o..] + y[..o];
    }
  }

  /** The words left behind by a left and then right store. */
  lemma StorePairValue(a: Word, r: seq<Byte>, x: seq<Byte>, y: seq<Byte>)
    requires |x| == |y| == |r| == 4 && a + 3 < WORD_LIMIT
    ensures var o := a % 4;
      && LoadStore(0x2A, a, WordOf(r), WordOf(x)) == Ok(WordOf(x[..o] + r[..4 - o]))
      && LoadStore(0x2E, a + 3, WordOf(r), WordOf(y)) == Ok(WordOf(if o == 0 then r else r[4 - o..] + y[o..]))
  {
    hide LoadStore, WordOf;
    var o := a % 4;
    var p, q := Low(o), High(o);
    PartialLoads(a, WordOf(r), WordOf(x), p, q);
    ReplaceTail(x, r, o);
    if o == 0 {
      PartialRight(a + 3, WordOf(r), WordOf(y), 1, 0x1_0000_0000);
    } else {
      PartialRight(a + 3, WordOf(r), WordOf(y), q, p);
      ReplaceHead(y, r, o);
    }
  }

  /** An instruction word with the given fields. */
  predicate IsOp(insn: Word, opcode: Word, b: Word, r: Word, imm: Word) {
    Opcode(insn) == opcode && RsField(insn) == b && RtField(insn) == r && ImmField(insn) == imm
  }

  lemma SmallImmediate(imm: Word)
    requires imm < 0x8000
    ensures SignExtend(imm, 16) == imm
  {
    hide SignExtend;
    assert Pow2(15) == 0x8000;
    assert Pow2(16) == 0x1_0000;
    SignExtendExact(imm, 16);
  }

  /** One partial load: the register gets the merged value, memory stays. */
  lemma PartialLoadStep(c: Cpu, contents: Flat, opcode: Word, b: Word, r: Word, imm: Word,
    pre: Result<seq<Byte>>, out: Result<()>)
    requires !c.exited && c.pc % 4 == 0 && (opcode == 0x22 || opcode == 0x26) && b < 32 && 0 < r < 32 && imm < 0x8000
    requires IsOp(WordAt(contents, c.pc), opcode, b, r, imm) && c.registers[b] + imm < WORD_LIMIT
    requires LoadStore(opcode, c.registers[b] + imm, c.registers[r], WordAt(contents, Aligned(c.registers[b] + imm))).Ok?
    ensures var ea := c.registers[b] + imm;
      var val := LoadStore(opcode, ea, c.registers[r], WordAt(contents, Aligned(ea))).value;
      StepOn(c, contents, pre, out) == Ok((Advance(SetRegister(CountStep(c), r, val)), contents))
  {
    hide LoadStore, WordAt, SignExtend;
    SmallImmediate(imm);
  }

  /** One partial store: one word of memory changes, registers stay. */
  lemma PartialStoreStep(c: Cpu, contents: Flat, opcode: Word, b: Word, r: Word, imm: Word,
    pre: Result<seq<Byte>>, out: Result<()>)
    requires !c.exited && c.pc % 4 == 0 && (opcode == 0x2A || opcode == 0x2E) && b < 32 && r < 32 && imm < 0x8000
    requires IsOp(WordAt(contents, c.pc), opcode, b, r, imm) && c.registers[b] + imm < WORD_LIMIT
    requires LoadStore(opcode, c.registers[b] + imm, c.registers[r], WordAt(contents, Aligned(c.registers[b] + imm))).Ok?
    ensures var ea := c.registers[b] + imm;
      var val := LoadStore(opcode, ea, c.registers[r], WordAt(contents, Aligned(ea))).value;
      StepOn(c, contents, pre, out) == Ok((Advance(CountStep(c)), WriteWord(contents, Aligned(ea), val)))
  {
    hide LoadStore, WordAt, WriteWord, SignExtend;
    SmallImmediate(imm);
  }

  /** The word holding the end of the range is the next word, or the same one when aligned. */
  lemma EndWord(a: Word)
    requires a + 3 < WORD_LIMIT
    ensures Aligned(a + 3) == if a % 4 == 0 then a else Aligned(a) + 4
    ensures Aligned(a) == a - a % 4 && (a % 4 != 0 ==> Aligned(a) + 8 <= WORD_LIMIT)
  {
  }

  /** `lwl r, 0(b)` then `lwr r, 3(b)` load the four bytes at the address in `b`, aligned or
      not, and change nothing else but the program counters and the step count. */
  lemma UnalignedLoad(c: Cpu, contents: Flat, b: Word, r: Word,
                      pre: Result<seq<Byte>>, out: Result<()>, pre': Result<seq<Byte>>, out': Result<()>)
    requires !c.exited && c.pc % 4 == 0 && c.nextPc % 4 == 0 && b < 32 && 0 < r < 32 && r != b
    requires c.registers[b] + 3 < WORD_LIMIT
    requires IsOp(WordAt(contents, c.pc), 0x22, b, r, 0) && IsOp(WordAt(contents, c.nextPc), 0x26, b, r, 3)
    ensures var a := c.registers[b];
      var first := StepOn(c, contents, pre, out);
      && first.Ok?
      && var second := StepOn(first.value.0, first.value.1, pre', out');
         second == Ok((Advance(CountStep(Advance(CountStep(c)))).(registers := c.registers[r := WordOf(contents[a..a + 4])]), contents))
  {
    hide LoadStore, WordAt, StepOn, IsOp, WordOf;
    var a := c.registers[b];
    EndWord(a);
    var lo, hi := Aligned(a), Aligned(a + 3);
    var x, y := contents[lo..lo + 4], contents[hi..hi + 4];
    WordAtBytes(contents, lo);
    WordAtBytes(contents, hi);
    LoadPairValue(a, c.registers[r], x, y);
    PairSlice(contents, a);
    PartialLoadStep(c, contents, 0x22, b, r, 0, pre, out);
    var left := LoadStore(0x22, a, c.registers[r], WordOf(x)).value;
    var c' := Advance(SetRegister(CountStep(c), r, left));
    PartialLoadStep(c', contents, 0x26, b, r, 3, pre', out');
    var v := WordOf(contents[a..a + 4]);
    assert c.registers[r := left][r := v] == c.registers[r := v];
    assert SetRegister(CountStep(c'), r, v) == CountStep(Advance(CountStep(c))).(registers := c.registers[r := v]);
  }

  /** The bytes at an address lie in its aligned word and the next one. */
  lemma PairSlice(contents: Flat, a: Word)
    requires a + 3 < WORD_LIMIT
    ensures var lo, hi := Aligned(a), Aligned(a + 3);
      && lo + 4 <= WORD_LIMIT && hi + 4 <= WORD_LIMIT
      && (contents[lo..lo + 4] + contents[hi..hi + 4])[a % 4..a % 4 + 4] == contents[a..a + 4]
  {
    EndWord(a);
    var lo, hi := Aligned(a), Aligned(a + 3);
    if a % 4 != 0 {
      assert contents[lo..lo + 4] + contents[hi..hi + 4] == contents[lo..lo + 8];
      SubSlice(contents, lo, 8, a % 4, 4);
    }
  }

  lemma WordAtBytes(contents: Flat, a: Word)
    requires a % 4 == 0
    ensures a + 4 <= WORD_LIMIT && WordAt(contents, a) == WordOf(contents[a..a + 4])
  {
  }

  /** `swl r, 0(b)` then `swr r, 3(b)` replace exactly the four bytes at the address in `b` by
      the register, provided the first store does not overwrite the second instruction. */
  lemma UnalignedStore(c: Cpu, contents: Flat, b: Word, r: Word,
                       pre: Result<seq<Byte>>, out: Result<()>, pre': Result<seq<Byte>>, out': Result<()>)
    requires !c.exited && c.pc % 4 == 0 && c.nextPc % 4 == 0 && b < 32 && r < 32
    requires c.registers[b] + 3 < WORD_LIMIT && c.nextPc != Aligned(c.registers[b])
    requires IsOp(WordAt(contents, c.pc), 0x2A, b, r, 0) && IsOp(WordAt(contents, c.nextPc), 0x2E, b, r, 3)
    ensures var a := c.registers[b];
      var first := StepOn(c, contents, pre, out);
      && first.Ok?
      && var second := StepOn(first.value.0, first.value.1, pre', out');
         second == Ok((Advance(CountStep(Advance(CountStep(c)))), Splice(contents, a, BytesOf(c.registers[r]))))
  {
    hide LoadStore, WordAt, WriteWord, StepOn, IsOp, WordOf, BytesOf, Splice;
    var a := c.registers[b];
    EndWord(a);
    var lo, hi, o := Aligned(a), Aligned(a + 3), a % 4;
    var bytes := BytesOf(c.registers[r]);
    var x := contents[lo..lo + 4];
    WordAtBytes(contents, lo);
    WordRoundTrip(c.registers[r]);
    StorePairValue(a, bytes, x, x);
    PartialStoreStep(c, contents, 0x2A, b, r, 0, pre, out);
    var contents' := WriteWord(contents, lo, WordOf(x[..o] + bytes[..4 - o]));
    StoreIsSplice(contents, lo, x[..o] + bytes[..4 - o]);
    OtherWordKept(contents, lo, x[..o] + bytes[..4 - o], c.nextPc);
    var y := contents'[hi..hi + 4];
    WordAtBytes(contents', hi);
    StorePairValue(a, bytes, x, y);
    PartialStoreStep(Advance(CountStep(c)), contents', 0x2E, b, r, 3, pre', out');
    var tail := if o == 0 then bytes else bytes[4 - o..] + y[o..];
    StoreIsSplice(contents', hi, tail);
    TwoSplices(contents, a, bytes);
  }

  lemma StoreIsSplice(contents: Flat, a: Word, bytes: seq<Byte>)
    requires a % 4 == 0 && |bytes| == 4
    ensures a + 4 <= WORD_LIMIT && WriteWord(contents, a, WordOf(bytes)) == Splice(contents, a, bytes)
  {
    hide Splice;
    BytesRoundTrip(bytes);
  }

  lemma OtherWordKept(contents: Flat, a: Word, bytes: seq<Byte>, a': Word)
    requires a % 4 == 0 && a' % 4 == 0 && a != a' && |bytes| == 4 && a + 4 <= WORD_LIMIT
    ensures a' + 4 <= WORD_LIMIT && WordAt(Splice(contents, a, bytes), a') == WordAt(contents, a')
  {
    SpliceOutside(contents, a, bytes, a', a' + 4);
  }

  /** The two word writes together splice the four bytes in. */
  lemma TwoSplices(contents: Flat, a: Word, bytes: seq<Byte>)
    requires |bytes| == 4 && a + 3 < WORD_LIMIT
    ensures var lo, hi, o := Aligned(a), Aligned(a + 3), a % 4;
      && lo + 4 <= WORD_LIMIT && hi + 4 <= WORD_LIMIT
      && var first := Splice(contents, lo, contents[lo..lo + 4][..o] + bytes[..4 - o]);
         Splice(first, hi, if o == 0 then bytes else bytes[4 - o..] + first[hi..hi + 4][o..]) == Splice(contents, a, bytes)
  {
    hide Splice;
    EndWord(a);
    var lo, hi, o := Aligned(a), Aligned(a + 3), a % 4;
    var x, y := bytes[..4 - o], bytes[4 - o..];
    var first := Splice(contents, lo, contents[lo..lo + 4][..o] + x);
    SubSlice(contents, lo, 4, 0, o);
    assert contents[lo..lo + 4][..o] == contents[lo..lo + 4][0..0 + o];
    SpliceBefore(contents, lo, o, x);
    if o == 0 {
      assert bytes[..4] == bytes;
      SpliceAgain(contents, a, bytes);
    } else {
      SubSlice(first, hi, 4, o, 4 - o);
      assert first[hi..hi + 4][o..] == first[hi..hi + 4][o..o + (4 - o)];
      SpliceBehind(first, hi, y, hi + o + (4 - o));
      SpliceAdjacent(contents, a, x, y);
      assert x + y == bytes;
    }
  }

  /** Loading what was just stored gives the register back. */
  lemma StoreThenLoad(contents: Flat, a: Word, v: Word)
    requires a + 3 < WORD_LIMIT
    ensures WordOf(Splice(contents, a, BytesOf(v))[a..a + 4]) == v
  {
    WordRoundTrip(v);
    SpliceInside(contents, a, BytesOf(v), a, a + 4);
  }
}
