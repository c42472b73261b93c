/** Byte and halfword access: `lb`, `lbu`, `lh` and `lhu` read the addressed bytes, `sb` and
    `sh` replace them and nothing else. */
module NarrowAccess {
  import opened Words
  import opened Results
  import opened Pages
  import opened UpperTree
  import opened Alu
  import opened Cpu
  import opened ArithmeticLaws
  import opened Unaligned

  /** Masking with a shifted mask is masking the shifted value. */
  lemma {:induction false} AndShift(x: nat, m: nat, k: nat)
    ensures m * Pow2(k) >= 0 && x / Pow2(k) >= 0
    ensures And(x, m * Pow2(k)) == And(x / Pow2(k), m) * Pow2(k)
    decreases k
  {
    hide And, Pow2;
    MulNonNegative(m, Pow2(k));
    DivShrinks(x, Pow2(k));
    if k == 0 {
      assert Pow2(0) == 1 by { PowZero(); }
    } else {
      var p := Pow2(k - 1);
      PowDouble(k);
      MulNonNegative(m, p);
      DivShrinks(x / 2, p);
      AndShift(x / 2, m, k - 1);
      DivDiv(x, 2, p);
      AndEven(x, m * p);
      Doubled(m, p);
      Doubled(And(x / 2 / p, m), p);
    }
  }

  lemma PowZero()
    ensures Pow2(0) == 1
  {
  }

  lemma Doubled(a: int, p: int)
    ensures a * (2 * p) == 2 * (a * p)
  {
  }

  lemma AndEven(x: nat, y: nat)
    ensures And(x, 2 * y) == 2 * And(x / 2, y)
  {
    assert 2 * y / 2 == y && 2 * y % 2 == 0;
    if x == 0 || y == 0 {
      AndNothing(x / 2);
    }
  }

  /** Flipping all bits by exclusive or is the complement. */
  lemma XorAllOnes(y: Word)
    ensures XorW(0xFFFF_FFFF, y) == Not(y)
  {
    hide And, Xor;
    Pow2At32();
    OrXorAnd(0xFFFF_FFFF, y);
    AndComm(0xFFFF_FFFF, y);
    AndLowMask(y, 32);
    XorWDefinition(0xFFFF_FFFF, y);
  }

  lemma XorWDefinition(x: Word, y: Word)
    ensures XorW(x, y) == Xor(x, y)
  {
    hide Xor;
  }

  /** Widths of a byte and of a halfword. */
  predicate FieldWidth(j: nat, w: int) { (j == 8 && w == 0x100) || (j == 16 && w == 0x1_0000) }

  lemma WidthPower(j: nat, w: int)
    requires FieldWidth(j, w)
    ensures Pow2(j) == w
  {
    assert Pow2(8) == 0x100;
    assert Pow2(16) == 0x1_0000;
  }

  /** The field of width `w` that starts `k` bits up. */
  function Field(mem: Word, p: int, w: int): int
    requires p >= 1 && w >= 1
  {
    mem / p % w
  }

  lemma LoadField(mem: Word, k: Word, p: int, q: int, j: nat, w: int)
    requires ByteShift(k, p, q) && FieldWidth(j, w)
    ensures And(Shr(mem, k), w - 1) == Field(mem, p, w)
  {
    hide And, Pow2, Shr;
    WidthPower(j, w);
    ByteShifts(mem, k, p, q);
    AndLowMask(Shr(mem, k), j);
  }

  /** A multiple of the field's place value above it, and the part below it. */
  lemma FieldParts(mem: Word, p: int, w: int)
    requires p >= 1 && w >= 1
    ensures mem / p == mem / p / w * w + Field(mem, p, w)
    ensures mem == mem / p / w * w * p + Field(mem, p, w) * p + mem % p
    ensures 0 <= Field(mem, p, w) < w && mem / p / w >= 0
  {
    DivShrinks(mem, p);
    DivShrinks(mem / p, w);
    var d, h, f := mem / p, mem / p / w, mem / p % w;
    assert mem == p * d + mem % p && d == w * h + f;
    assert (w * h + f) * p == w * h * p + f * p;
  }

  /** Clearing the field and joining a new value into it. */
  lemma StoreField(mem: Word, v: Word, k: Word, p: int, q: int, j: nat, w: int)
    requires ByteShift(k, p, q) && FieldWidth(j, w) && w * p <= WORD_LIMIT
    ensures OrW(And(mem, XorW(0xFFFF_FFFF, Shl(w - 1, k))), Shl(And(v, w - 1), k))
      == mem - Field(mem, p, w) * p + v % w * p
  {
    hide And, Or, Pow2, Shl, XorW, OrW, Field;
    WidthPower(j, w);
    BytePowers(k, p, q);
    AndLowMask(v, j);
    FieldShift(w - 1, k, p, q, w);
    FieldShift(v % w, k, p, q, w);
    XorAllOnes((w - 1) * p);
    ClearField(mem, k, p, w, j);
    JoinField(mem, v % w, k, p, w, j);
    OrWDefinition(mem - Field(mem, p, w) * p, v % w * p);
  }

  lemma FieldShift(x: Word, k: Word, p: int, q: int, w: int)
    requires ByteShift(k, p, q) && x < w && w * p <= WORD_LIMIT
    ensures 0 <= x * p < WORD_LIMIT && Shl(x, k) == x * p
  {
    hide Pow2, Shl;
    BytePowers(k, p, q);
    MulNonNegative(x, p);
    MulDistance(p, w, x);
    assert p * x == x * p && p * w == w * p;
    ShlSmall(x, k, x * p);
  }

  lemma ClearField(mem: Word, k: Word, p: int, w: int, j: nat)
    requires p == Pow2(k) && w == Pow2(j) && 0 <= (w - 1) * p < WORD_LIMIT
    ensures And(mem, Not((w - 1) * p)) == mem - Field(mem, p, w) * p
  {
    hide And, Pow2;
    Pow2At32();
    AndComplement(mem, (w - 1) * p, 32);
    AndShift(mem, w - 1, k);
    AndLowMask(mem / p, j);
  }

  lemma JoinField(mem: Word, x: Word, k: Word, p: int, w: int, j: nat)
    requires p == Pow2(k) && w == Pow2(j) && x < w && 0 <= x * p < WORD_LIMIT
    ensures mem - Field(mem, p, w) * p >= 0
    ensures Or(mem - Field(mem, p, w) * p, x * p) == mem - Field(mem, p, w) * p + x * p
  {
    hide And, Or, Pow2, Field;
    FieldParts(mem, p, w);
    var h := mem / p / w;
    var rest := mem - Field(mem, p, w) * p;
    MulNonNegative(h, w);
    MulNonNegative(h * w, p);
    assert rest == p * (h * w) + mem % p;
    DivModUnique(rest, p, h * w, mem % p);
    AndShift(rest, x, k);
    AndComm(h * w, x);
    AndShift(x, h, j);
    DivModUnique(x, w, 0, x);
    AndNothing(h);
    OrXorAnd(rest, x * p);
  }

  lemma ByteShiftOf(o: nat)
    requires o < 4
    ensures ByteShift(24 - 8 * o, Low(3 - o), High(3 - o))
  {
  }

  lemma HalfBit(a: Word)
    ensures a / 2 % 2 == a % 4 / 2
  {
    var q, r := a / 4, a % 4;
    assert a == 4 * q + r;
    DivModUnique(a, 2, 2 * q + r / 2, r % 2);
    DivModUnique(2 * q + r / 2, 2, q, r / 2);
  }

  /** A word with one byte replaced. */
  lemma ByteInWord(x: seq<Byte>, o: nat, v: Byte)
    requires |x| == 4 && o < 4
    ensures Field(WordOf(x), Low(3 - o), 0x100) == x[o]
    ensures WordOf(x) - x[o] * Low(3 - o) + v * Low(3 - o) == WordOf(x[o := v])
  {
    WordParts(x);
    var b0: int, b1: int, b2: int, b3: int, w: int := x[0], x[1], x[2], x[3], WordOf(x);
    if o == 0 {
      DivModUnique(b0, 0x100, 0, b0);
    } else if o == 1 {
      DivModUnique(b0 * 0x100 + b1, 0x100, b0, b1);
    } else if o == 2 {
      DivModUnique(b0 * 0x1_0000 + b1 * 0x100 + b2, 0x100, b0 * 0x100 + b1, b2);
    } else {
      assert w / 1 == w;
    }
  }

  /** The big-endian halfword at the front of two bytes. */
  function HalfOf(b: seq<Byte>): Word
    requires |b| == 2
  {
    var b0: int, b1: int := b[0], b[1];
    b0 * 0x100 + b1
  }

  function HalfBytes(v: Word): (b: seq<Byte>)
    ensures |b| == 2
  {
    [v / 0x100 % 0x100, v % 0x100]
  }

  lemma HalfFields(x: seq<Byte>)
    requires |x| == 4
    ensures Field(WordOf(x), 0x1_0000, 0x1_0000) == HalfOf(x[..2])
    ensures Field(WordOf(x), 1, 0x1_0000) == HalfOf(x[2..])
  {
    WordParts(x);
    var b0: int, b1: int, w: int := x[0], x[1], WordOf(x);
    DivModUnique(b0 * 0x100 + b1, 0x1_0000, 0, b0 * 0x100 + b1);
    assert w / 1 == w;
  }

  lemma WordOfHalves(x: seq<Byte>)
    requires |x| == 4
    ensures WordOf(x) == HalfOf(x[..2]) * 0x1_0000 + HalfOf(x[2..])
  {
  }

  lemma HalfRoundTrip(v: Word)
    ensures HalfOf(HalfBytes(v)) == v % 0x1_0000
  {
    var d, lo := v / 0x100, v % 0x100;
    DivModUnique(v, 0x1_0000, d / 0x100, d % 0x100 * 0x100 + lo);
  }

  /** A word with one halfword replaced. */
  lemma HalvesInWord(x: seq<Byte>, v: Word)
    requires |x| == 4
    ensures WordOf(x) - HalfOf(x[..2]) * 0x1_0000 + v % 0x1_0000 * 0x1_0000 == WordOf(HalfBytes(v) + x[2..])
    ensures WordOf(x) - HalfOf(x[2..]) + v % 0x1_0000 == WordOf(x[..2] + HalfBytes(v))
  {
    hide WordOf, HalfOf;
    var upper, lower := HalfBytes(v) + x[2..], x[..2] + HalfBytes(v);
    HalfRoundTrip(v);
    WordOfHalves(x);
    WordOfHalves(upper);
    WordOfHalves(lower);
    assert upper[..2] == HalfBytes(v) && upper[2..] == x[2..];
    assert lower[..2] == x[..2] && lower[2..] == HalfBytes(v);
  }

  /** The address of the halfword that `lh` and `sh` use: odd addresses are rounded down. */
  function HalfAddress(a: Word): Word { a - a % 2 }

  /** Two's-complement reading of a value of the given width, as a word. */
  function Extend(x: int, w: int): Word { Unsigned(if x < w / 2 then x else x - w) }

  lemma SignExtendField(x: Word, j: Word, w: int)
    requires FieldWidth(j, w) && x < w
    ensures SignExtend(x, j) == Extend(x, w)
  {
    hide SignExtend, Pow2;
    WidthPower(j, w);
    PowDouble(j);
    SignExtendExact(x, j);
  }

  lemma HalfWhere(a: Word)
    ensures Aligned(a) + 4 <= MEMORY_SIZE
    ensures HalfAddress(a) == if a % 4 < 2 then Aligned(a) else Aligned(a) + 2
  {
  }

  /** Where the addressed bytes lie in the aligned word. */
  lemma BytesInWord(contents: Flat, a: Word)
    ensures Aligned(a) + 4 <= MEMORY_SIZE && HalfAddress(a) + 2 <= MEMORY_SIZE
    ensures var x := contents[Aligned(a)..Aligned(a) + 4];
      && WordAt(contents, Aligned(a)) == WordOf(x) && x[a % 4] == contents[a]
      && contents[HalfAddress(a)..HalfAddress(a) + 2] == (if a % 4 < 2 then x[..2] else x[2..])
  {
    hide WordOf, HalfAddress;
    HalfWhere(a);
    SubSlice(contents, Aligned(a), 4, if a % 4 < 2 then 0 else 2, 2);
    var x := contents[Aligned(a)..Aligned(a) + 4];
    assert x[0..0 + 2] == x[..2] && x[2..2 + 2] == x[2..];
  }

  /** The narrow cases of the ALU, with their shifts and masks. */
  lemma NarrowOps(a: Word, rt: Word, mem: Word)
    ensures var k := 24 - 8 * (a % 4);
      && LoadStore(0x24, a, rt, mem) == Ok(And(Shr(mem, k), 0xFF))
      && LoadStore(0x20, a, rt, mem) == Ok(SignExtend(And(Shr(mem, k), 0xFF), 8))
      && LoadStore(0x28, a, rt, mem) ==
        Ok(OrW(And(mem, XorW(0xFFFF_FFFF, Shl(0x100 - 1, k))), Shl(And(rt, 0x100 - 1), k)))
    ensures var k := 16 - 16 * (a / 2 % 2);
      && LoadStore(0x25, a, rt, mem) == Ok(And(Shr(mem, k), 0xFFFF))
      && LoadStore(0x21, a, rt, mem) == Ok(SignExtend(And(Shr(mem, k), 0xFFFF), 16))
      && LoadStore(0x29, a, rt, mem) ==
        Ok(OrW(And(mem, XorW(0xFFFF_FFFF, Shl(0x1_0000 - 1, k))), Shl(And(rt, 0x1_0000 - 1), k)))
  {
    hide And, Or, Xor, Pow2, Shl, Shr, OrW, XorW, SignExtend;
  }

  lemma ByteLoads(contents: Flat, a: Word, rt: Word)
    ensures var mem := WordAt(contents, Aligned(a));
      && LoadStore(0x24, a, rt, mem) == Ok(contents[a])
      && LoadStore(0x20, a, rt, mem) == Ok(Extend(contents[a], 0x100))
  {
    hide And, Or, Pow2, Shl, Shr, OrW, XorW, SignExtend, WordAt, WordOf, Extend, Field, LoadStore;
    var mem, o := WordAt(contents, Aligned(a)), a % 4;
    BytesInWord(contents, a);
    NarrowOps(a, rt, mem);
    ByteShiftOf(o);
    ByteInWord(contents[Aligned(a)..Aligned(a) + 4], o, 0);
    LoadField(mem, 24 - 8 * o, Low(3 - o), High(3 - o), 8, 0x100);
    SignExtendField(contents[a], 8, 0x100);
  }

  lemma HalfLoads(contents: Flat, a: Word, rt: Word)
    ensures HalfAddress(a) + 2 <= MEMORY_SIZE
    ensures var mem := WordAt(contents, Aligned(a));
      var half := HalfOf(contents[HalfAddress(a)..HalfAddress(a) + 2]);
      && LoadStore(0x25, a, rt, mem) == Ok(half)
      && LoadStore(0x21, a, rt, mem) == Ok(Extend(half, 0x1_0000))
  {
    hide And, Or, Pow2, Shl, Shr, OrW, XorW, SignExtend, WordAt, WordOf, Extend, Field, LoadStore, HalfOf, HalfAddress,
      Aligned;
    var mem := WordAt(contents, Aligned(a));
    BytesInWord(contents, a);
    NarrowOps(a, rt, mem);
    HalfBit(a);
    var x := contents[Aligned(a)..Aligned(a) + 4];
    HalfFields(x);
    if a % 4 < 2 {
      LoadField(mem, 16, 0x1_0000, 0x1_0000, 16, 0x1_0000);
      HalfBound(x[..2]);
      SignExtendField(HalfOf(x[..2]), 16, 0x1_0000);
    } else {
      LoadField(mem, 0, 1, 0x1_0000_0000, 16, 0x1_0000);
      HalfBound(x[2..]);
      SignExtendField(HalfOf(x[2..]), 16, 0x1_0000);
    }
  }

  lemma HalfBound(b: seq<Byte>)
    requires |b| == 2
    ensures HalfOf(b) < 0x1_0000
  {
  }

  /** `lbu` and `lb` read the byte at the address; `lhu` and `lh` the halfword over it. */
  lemma NarrowLoads(contents: Flat, a: Word, rt: Word)
    ensures HalfAddress(a) + 2 <= MEMORY_SIZE
    ensures var mem := WordAt(contents, Aligned(a));
      var half := HalfOf(contents[HalfAddress(a)..HalfAddress(a) + 2]);
      && LoadStore(0x24, a, rt, mem) == Ok(contents[a])
      && LoadStore(0x20, a, rt, mem) == Ok(Extend(contents[a], 0x100))
      && LoadStore(0x25, a, rt, mem) == Ok(half)
      && LoadStore(0x21, a, rt, mem) == Ok(Extend(half, 0x1_0000))
  {
    hide LoadStore, WordAt, HalfOf, Extend;
    ByteLoads(contents, a, rt);
    HalfLoads(contents, a, rt);
  }

  /** Writing back a word with one part replaced is replacing that part of memory. */
  lemma WriteByte(contents: Flat, a: Word, v: Byte)
    ensures Aligned(a) + 4 <= MEMORY_SIZE
    ensures WriteWord(contents, Aligned(a), WordOf(contents[Aligned(a)..Aligned(a) + 4][a % 4 := v])) == contents[a := v]
  {
    hide BytesOf, WordOf;
    var lo := Aligned(a);
    var bytes := contents[lo..lo + 4][a % 4 := v];
    BytesRoundTrip(bytes);
    forall i | 0 <= i < MEMORY_SIZE
      ensures Splice(contents, lo, bytes)[i] == contents[a := v][i]
    {
      SpliceAt(contents, lo, bytes, i);
    }
  }

  lemma WriteHalf(contents: Flat, a: Word, v: seq<Byte>)
    requires |v| == 2
    ensures Aligned(a) + 4 <= MEMORY_SIZE && HalfAddress(a) + 2 <= MEMORY_SIZE
    ensures var x := contents[Aligned(a)..Aligned(a) + 4];
      WriteWord(contents, Aligned(a), WordOf(if a % 4 < 2 then v + x[2..] else x[..2] + v))
        == Splice(contents, HalfAddress(a), v)
  {
    hide BytesOf, WordOf, Splice;
    HalfWhere(a);
    var lo: nat := Aligned(a);
    var x := contents[lo..lo + 4];
    BytesRoundTrip(if a % 4 < 2 then v + x[2..] else x[..2] + v);
    if a % 4 < 2 {
      SpliceBehind(contents, lo, v, lo + 4);
      assert x[2..] == contents[lo + 2..lo + 4];
    } else {
      SpliceBefore(contents, lo, 2, v);
      assert x[..2] == contents[lo..lo + 2];
    }
  }

  lemma ByteStores(contents: Flat, a: Word, rt: Word)
    ensures var stored := LoadStore(0x28, a, rt, WordAt(contents, Aligned(a)));
      stored.Ok? && WriteWord(contents, Aligned(a), stored.value) == contents[a := rt % 0x100]
  {
    hide And, Or, Pow2, Shl, Shr, OrW, XorW, SignExtend, WordAt, WordOf, WriteWord, Field, LoadStore;
    var mem, o := WordAt(contents, Aligned(a)), a % 4;
    BytesInWord(contents, a);
    NarrowOps(a, rt, mem);
    ByteShiftOf(o);
    StoreField(mem, rt, 24 - 8 * o, Low(3 - o), High(3 - o), 8, 0x100);
    ByteInWord(contents[Aligned(a)..Aligned(a) + 4], o, rt % 0x100);
    WriteByte(contents, a, rt % 0x100);
  }

  lemma UpperHalfStored(contents: Flat, a: Word, rt: Word, x: seq<Byte>)
    requires a % 4 < 2 && Aligned(a) + 4 <= MEMORY_SIZE && x == contents[Aligned(a)..Aligned(a) + 4]
    ensures LoadStore(0x29, a, rt, WordOf(x)) == Ok(WordOf(HalfBytes(rt) + x[2..]))
  {
    hide And, Or, Pow2, Shl, Shr, OrW, XorW, SignExtend, WordOf, Field, LoadStore, HalfOf, HalfBytes, Aligned;
    NarrowOps(a, rt, WordOf(x));
    HalfBit(a);
    HalfFields(x);
    HalvesInWord(x, rt);
    StoreField(WordOf(x), rt, 16, 0x1_0000, 0x1_0000, 16, 0x1_0000);
  }

  lemma LowerHalfStored(contents: Flat, a: Word, rt: Word, x: seq<Byte>)
    requires a % 4 >= 2 && Aligned(a) + 4 <= MEMORY_SIZE && x == contents[Aligned(a)..Aligned(a) + 4]
    ensures LoadStore(0x29, a, rt, WordOf(x)) == Ok(WordOf(x[..2] + HalfBytes(rt)))
  {
    hide And, Or, Pow2, Shl, Shr, OrW, XorW, SignExtend, WordOf, Field, LoadStore, HalfOf, HalfBytes, Aligned;
    NarrowOps(a, rt, WordOf(x));
    HalfBit(a);
    HalfFields(x);
    HalvesInWord(x, rt);
    StoreField(WordOf(x), rt, 0, 1, 0x1_0000_0000, 16, 0x1_0000);
  }

  lemma HalfStores(contents: Flat, a: Word, rt: Word)
    ensures HalfAddress(a) + 2 <= MEMORY_SIZE
    ensures var stored := LoadStore(0x29, a, rt, WordAt(contents, Aligned(a)));
      stored.Ok? && WriteWord(contents, Aligned(a), stored.value) == Splice(contents, HalfAddress(a), HalfBytes(rt))
  {
    hide WordAt, WordOf, WriteWord, Splice, LoadStore, HalfBytes, HalfAddress, Aligned;
    var x := contents[Aligned(a)..Aligned(a) + 4];
    BytesInWord(contents, a);
    WriteHalf(contents, a, HalfBytes(rt));
    if a % 4 < 2 {
      UpperHalfStored(contents, a, rt, x);
    } else {
      LowerHalfStored(contents, a, rt, x);
    }
  }

  /** `sb` replaces the byte at the address, `sh` the halfword over it; nothing else changes. */
  lemma NarrowStores(contents: Flat, a: Word, rt: Word)
    ensures HalfAddress(a) + 2 <= MEMORY_SIZE
    ensures var mem := WordAt(contents, Aligned(a));
      var byte, half := LoadStore(0x28, a, rt, mem), LoadStore(0x29, a, rt, mem);
      && byte.Ok? && WriteWord(contents, Aligned(a), byte.value) == contents[a := rt % 0x100]
      && half.Ok? && WriteWord(contents, Aligned(a), half.value) == Splice(contents, HalfAddress(a), HalfBytes(rt))
  {
    hide LoadStore, WordAt, WriteWord, Splice, HalfBytes;
    ByteStores(contents, a, rt);
    HalfStores(contents, a, rt);
  }
}
