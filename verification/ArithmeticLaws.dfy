/** What the arithmetic instructions compute, in terms of integers. */
module ArithmeticLaws {
  import opened Words
  import opened Results
  import opened Alu
  import opened Cpu

  /** The signed and unsigned 64-bit numbers in HI:LO. */
  function SignedPair(hi: Word, lo: Word): int { Signed(hi) * WORD_LIMIT + lo }
  function UnsignedPair(hi: Word, lo: Word): int { hi * WORD_LIMIT + lo }

  lemma ModAddMultiple(x: int, m: int, k: int)
    requires m >= 1
    ensures (x + m * k) % m == x % m
  {
    var q, r := x / m, x % m;
    assert x == m * q + r;
    assert x + m * k == m * (q + k) + r by {
      assert m * (q + k) == m * q + m * k;
    }
    DivModUnique(x + m * k, m, q + k, r);
  }

  /** Multiplying sign-extended operands modulo 2^64 is multiplying the signed values. */
  lemma WidenProduct(a: Word, b: Word)
    ensures Widen(a) * Widen(b) % LONG_LIMIT == Signed(a) * Signed(b) % LONG_LIMIT
  {
    var x, y := Signed(a), Signed(b);
    var k, l := if x < 0 then 1 else 0, if y < 0 then 1 else 0;
    assert Widen(a) == x + LONG_LIMIT * k && Widen(b) == y + LONG_LIMIT * l;
    var extra := k * y + l * x + k * l * LONG_LIMIT;
    assert Widen(a) * Widen(b) == x * y + LONG_LIMIT * extra;
    ModAddMultiple(x * y, LONG_LIMIT, extra);
  }

  lemma ProductBound(x: int, y: int, m: int)
    requires m >= 0 && -m <= x <= m && -m <= y <= m
    ensures -(m * m) <= x * y <= m * m
  {
    var p, q := Magnitude(x), Magnitude(y);
    assert x * y == p * q || x * y == -(p * q);
    assert 0 <= p * q <= m * q <= m * m by {
      MulNonNegative(p, q);
      MulNonNegative(m - p, q);
      MulNonNegative(m, m - q);
      assert m * q - p * q == (m - p) * q;
      assert m * m - m * q == m * (m - q);
    }
  }

  /** A 64-bit accumulator reads back as any signed number it was reduced from. */
  lemma SplitSigned(p: int)
    requires -0x8000_0000_0000_0000 <= p < 0x8000_0000_0000_0000
    ensures var acc := p % LONG_LIMIT;
      SignedPair(acc / WORD_LIMIT, acc % WORD_LIMIT) == p
  {
    var acc := p % LONG_LIMIT;
    if p >= 0 {
      assert acc == p;
    } else {
      assert acc == p + LONG_LIMIT;
    }
  }

  /** `mult` leaves the exact signed product, `multu` the exact unsigned product. */
  lemma MultExact(c: Cpu, rs: Word, rt: Word)
    ensures HiLoUpdate(c, 0x18, rs, rt).Ok? && HiLoUpdate(c, 0x19, rs, rt).Ok?
    ensures var signed := HiLoUpdate(c, 0x18, rs, rt).value.0;
      SignedPair(signed.hi, signed.lo) == Signed(rs) * Signed(rt)
    ensures var unsigned := HiLoUpdate(c, 0x19, rs, rt).value.0;
      UnsignedPair(unsigned.hi, unsigned.lo) == rs * rt
  {
    WidenProduct(rs, rt);
    ProductBound(Signed(rs), Signed(rt), 0x8000_0000);
    SplitSigned(Signed(rs) * Signed(rt));
    ProductBound(rs, rt, 0xFFFF_FFFF);
    MulNonNegative(rs, rt);
    assert rs * rt % LONG_LIMIT == rs * rt;
  }

  /** The law of truncated division: quotient and remainder recombine, the remainder is
      smaller than the divisor and has the sign of the dividend. */
  ghost predicate Truncates(x: int, y: int, q: int, r: int) {
    x == q * y + r && Magnitude(r) < Magnitude(y) && (r == 0 || (r > 0 <==> x > 0))
  }

  lemma TruncLaw(x: int, y: int)
    requires y != 0
    ensures Truncates(x, y, TruncDiv(x, y), TruncRem(x, y))
  {
    DivModFacts(Magnitude(x), Magnitude(y));
    TruncSigns(x, y, Magnitude(x) / Magnitude(y), Magnitude(x) % Magnitude(y));
  }

  lemma DivModFacts(p: nat, m: int)
    requires m >= 1
    ensures p == m * (p / m) + p % m && 0 <= p % m < m
  {
  }

  lemma TruncSigns(x: int, y: int, q: int, r: int)
    requires y != 0 && 0 <= r < Magnitude(y) && Magnitude(x) == Magnitude(y) * q + r
    ensures Truncates(x, y, if (x >= 0) == (y > 0) then q else -q, if x >= 0 then r else -r)
  {
    hide Truncates;
    if x >= 0 {
      TruncPositive(x, y, Magnitude(y), q, r);
    } else {
      TruncNegative(x, y, Magnitude(y), q, r);
    }
  }

  lemma TruncPositive(x: int, y: int, m: int, q: int, r: int)
    requires 0 <= r < m && x >= 0 && x == m * q + r
    ensures y == m ==> Truncates(x, y, q, r)
    ensures y == -m ==> Truncates(x, y, -q, r)
  {
    Negations(q, m);
  }

  lemma TruncNegative(x: int, y: int, m: int, q: int, r: int)
    requires 0 <= r < m && x < 0 && -x == m * q + r
    ensures y == m ==> Truncates(x, y, -q, -r)
    ensures y == -m ==> Truncates(x, y, q, -r)
  {
    Negations(q, m);
  }

  lemma Negations(q: int, m: int)
    ensures q * -m == -(q * m) && -q * m == -(q * m) && -q * -m == q * m && m * q == q * m
  {
  }

  lemma TruncRange(x: int, y: int)
    requires y != 0 && -0x8000_0000 <= x < 0x8000_0000 && -0x8000_0000 <= y < 0x8000_0000
    ensures -0x8000_0000 <= TruncRem(x, y) < 0x8000_0000
    ensures !(x == -0x8000_0000 && y == -1) ==> -0x8000_0000 <= TruncDiv(x, y) < 0x8000_0000
  {
    TruncLaw(x, y);
    DivShrinks(Magnitude(x), Magnitude(y));
    if Magnitude(x) == 0x8000_0000 && Magnitude(y) > 1 {
      assert Magnitude(x) / Magnitude(y) * 2 <= Magnitude(x) by {
        var d, q := Magnitude(y), Magnitude(x) / Magnitude(y);
        assert Magnitude(x) == d * q + Magnitude(x) % d;
        MulNonNegative(d - 2, q);
        assert d * q == 2 * q + (d - 2) * q;
      }
    }
  }

  lemma SignedUnsigned(x: int)
    requires -0x8000_0000 <= x < 0x8000_0000
    ensures Signed(Unsigned(x)) == x
  {
  }

  /** `div` panics exactly on a zero divisor and on MIN / -1; otherwise LO and HI are the
      truncated quotient and remainder. */
  lemma DivExact(c: Cpu, rs: Word, rt: Word)
    ensures HiLoUpdate(c, 0x1A, rs, rt).Err? <==> rt == 0 || (Signed(rs) == -0x8000_0000 && Signed(rt) == -1)
    ensures HiLoUpdate(c, 0x1A, rs, rt).Ok? ==>
      var c' := HiLoUpdate(c, 0x1A, rs, rt).value.0;
      Truncates(Signed(rs), Signed(rt), Signed(c'.lo), Signed(c'.hi))
  {
    hide TruncDiv, TruncRem, Unsigned, Truncates;
    if HiLoUpdate(c, 0x1A, rs, rt).Ok? {
      TruncLaw(Signed(rs), Signed(rt));
      TruncRange(Signed(rs), Signed(rt));
      SignedUnsigned(TruncDiv(Signed(rs), Signed(rt)));
      SignedUnsigned(TruncRem(Signed(rs), Signed(rt)));
    }
  }

  lemma DivuExact(c: Cpu, rs: Word, rt: Word)
    ensures HiLoUpdate(c, 0x1B, rs, rt).Err? <==> rt == 0
    ensures HiLoUpdate(c, 0x1B, rs, rt).Ok? ==>
      var c' := HiLoUpdate(c, 0x1B, rs, rt).value.0;
      rs == c'.lo * rt + c'.hi && c'.hi < rt
  {
    if rt != 0 {
      assert rs == rt * (rs / rt) + rs % rt;
    }
  }

  lemma PowDouble(k: nat)
    requires k >= 1
    ensures Pow2(k) == 2 * Pow2(k - 1) >= 2
  {
  }

  lemma FactorBound(p: int, q: int)
    requires p >= 2 && q >= 2 && q * p == WORD_LIMIT
    ensures p < WORD_LIMIT && q < WORD_LIMIT
  {
    MulNonNegative(q - 2, p);
    MulNonNegative(q, p - 2);
    assert (q - 2) * p == WORD_LIMIT - 2 * p && q * (p - 2) == WORD_LIMIT - 2 * q;
  }

  lemma Powers(k: nat)
    requires 1 <= k <= 31
    ensures Pow2(32 - k) * Pow2(k) == WORD_LIMIT && Pow2(k) == 2 * Pow2(k - 1)
    ensures 2 <= Pow2(k) < WORD_LIMIT && 2 <= Pow2(32 - k) < WORD_LIMIT
  {
    hide Pow2;
    Pow2Sum(32 - k, k);
    Pow2At32();
    PowDouble(k);
    PowDouble(32 - k);
    FactorBound(Pow2(k), Pow2(32 - k));
  }

  /** Sign extension from `k` bits, for 1 <= k <= 31. */
  lemma SignExtendExact(data: Word, k: Word)
    requires 1 <= k <= 31 && data < Pow2(k)
    ensures SignExtend(data, k) == if data < Pow2(k - 1) then data else data + WORD_LIMIT - Pow2(k)
  {
    hide Pow2, And, Or, Shl, Shr, Sub, OrW;
    Powers(k);
    SignBit(data, k);
    SignMasks(k);
    var p, q := Pow2(k), Pow2(32 - k);
    AndLowMask(data, k);
    DivModUnique(data, p, 0, data);
    OrDisjoint(data, q - 1, k);
    OrWDefinition(data, WORD_LIMIT - p);
  }

  lemma SubSmall(x: Word, y: Word)
    requires x >= y
    ensures Sub(x, y) == x - y
  {
  }

  /** The three intermediate values of a sign extension: the sign bit and the two masks. */
  lemma SignBit(data: Word, k: Word)
    requires 1 <= k <= 31 && data < Pow2(k)
    ensures Shr(data, Sub(k, 1)) != 0 <==> data >= Pow2(k - 1)
  {
    hide Pow2, Shr, Sub;
    PowDouble(k);
    SubSmall(k, 1);
    ShrDefinition(data, k - 1);
    HalfQuotient(data, Pow2(k - 1));
  }

  lemma SignMasks(k: Word)
    requires 1 <= k <= 31
    ensures Shl(Sub(Shl(1, Sub(32, k)), 1), k) == WORD_LIMIT - Pow2(k) == (Pow2(32 - k) - 1) * Pow2(k)
    ensures Sub(Shl(1, k), 1) == Pow2(k) - 1
  {
    hide Pow2, Shl, Sub;
    Powers(k);
    SmallShifts(k);
    SmallShifts(32 - k);
    SubSmall(32, k);
    SubSmall(Pow2(k), 1);
    SubSmall(Pow2(32 - k), 1);
  }

  lemma HalfQuotient(data: Word, half: int)
    requires half >= 1 && data < 2 * half
    ensures data / half != 0 <==> data >= half
  {
    if data < half {
      DivModUnique(data, half, 0, data);
    } else {
      DivModUnique(data, half, 1, data - half);
    }
  }

  lemma OrWDefinition(x: Word, y: Word)
    ensures OrW(x, y) == Or(x, y)
  {
    hide Or;
  }

  lemma ShlSmall(x: Word, k: Word, product: int)
    requires k < 32 && product == x * Pow2(k) && 0 <= product < WORD_LIMIT
    ensures Shl(x, k) == product
  {
    hide Pow2;
    assert k % 32 == k;
  }

  lemma OneLess(q: int, p: int)
    ensures (q - 1) * p == q * p - p
  {
  }

  lemma SmallShifts(k: Word)
    requires 1 <= k <= 31
    ensures Shl(1, k) == Pow2(k) && 1 <= Pow2(32 - k) < WORD_LIMIT
    ensures Shl(Pow2(32 - k) - 1, k) == WORD_LIMIT - Pow2(k) == (Pow2(32 - k) - 1) * Pow2(k)
  {
    hide Pow2, Shl;
    Powers(k);
    ShlSmall(1, k, Pow2(k));
    OneLess(Pow2(32 - k), Pow2(k));
    ShlSmall(Pow2(32 - k) - 1, k, WORD_LIMIT - Pow2(k));
  }

  lemma ShrDefinition(x: Word, k: Word)
    requires k < 32
    ensures Shr(x, k) == x / Pow2(k)
  {
    hide Pow2;
    assert k % 32 == k;
  }

  /** With index 32 the result is always zero: every shift amount wraps to zero. */
  lemma SignExtendAt32(data: Word)
    ensures SignExtend(data, 32) == 0
  {
    assert Pow2(0) == 1;
    assert Sub(32, 32) == 0 && Shl(1, 32) == 1 && Shl(1, 0) == 1;
    assert And(data, 0) == 0;
    assert Or(0, 0) == 0;
  }

  /** The index only matters modulo 32. */
  lemma SignExtendModulo(data: Word, index: Word, index': Word)
    requires index % 32 == index' % 32
    ensures SignExtend(data, index) == SignExtend(data, index')
  {
    hide Pow2, And, Or, OrW, Sub;
    SubModulo(index, 1);
    SubModulo(index', 1);
    SubModulo(32, index);
    SubModulo(32, index');
  }

  lemma SubModulo(x: Word, y: Word)
    ensures Sub(x, y) % 32 == (x % 32 - y % 32) % 32
  {
  }

  /** Arithmetic shift right as the standard defines it: floor division of the signed value. */
  function ShiftRightArithmetic(x: Word, s: nat): Word { Unsigned(Signed(x) / Pow2(s)) }

  lemma FloorShift(x: Word, s: nat)
    requires 1 <= s <= 31
    ensures 0 <= x / Pow2(s) < Pow2(32 - s)
    ensures ShiftRightArithmetic(x, s)
      == if x / Pow2(s) < Pow2(31 - s) then x / Pow2(s) else x / Pow2(s) + WORD_LIMIT - Pow2(32 - s)
  {
    hide Pow2, Unsigned;
    Powers(s);
    Powers(32 - s);
    var p, half := Pow2(s), Pow2(31 - s);
    TwiceHalf(p, half);
    FloorOfSigned(x, p, half);
    DivShrinks(x, p);
    if x < 0x8000_0000 {
      UnsignedOf(x / p);
    } else {
      UnsignedOf(x / p - 2 * half);
    }
  }

  lemma TwiceHalf(p: int, half: int)
    ensures p * (2 * half) == 2 * half * p
  {
  }

  lemma UnsignedOf(y: int)
    requires -WORD_LIMIT <= y < WORD_LIMIT
    ensures Unsigned(y) == if y >= 0 then y else y + WORD_LIMIT
  {
  }

  lemma FloorOfSigned(x: Word, p: int, half: int)
    requires p >= 2 && half >= 1 && p * (2 * half) == WORD_LIMIT
    ensures x / p < 2 * half
    ensures x < 0x8000_0000 ==> x / p < half
    ensures x >= 0x8000_0000 ==> x / p >= half && (x - WORD_LIMIT) / p == x / p - 2 * half
  {
    var d, r := x / p, x % p;
    assert x == p * d + r;
    assert p * (2 * half) == 2 * (p * half);
    MulDistance(p, d, 2 * half - 1);
    MulDistance(p, d, half - 1);
    assert p * (2 * half - 1) == WORD_LIMIT - p && p * (half - 1) == 0x8000_0000 - p;
    MulDistance(p, half, d);
    if x >= 0x8000_0000 {
      assert p * (d - 2 * half) == p * d - WORD_LIMIT;
      DivModUnique(x - WORD_LIMIT, p, d - 2 * half, r);
    }
  }

  /** The shift amount is nonzero modulo 32, or there is nothing to shift. */
  lemma ShiftBySra(rt: Word, amount: Word)
    ensures SignExtend(Shr(rt, amount), Sub(32, amount)) == ShiftRightArithmetic(rt, amount % 32)
      <==> amount % 32 != 0 || rt == 0
    ensures amount % 32 == 0 ==> SignExtend(Shr(rt, amount), Sub(32, amount)) == 0
  {
    hide SignExtend, Pow2;
    var s := amount % 32;
    assert Sub(32, amount) % 32 == (32 - s) % 32;
    SignExtendModulo(Shr(rt, amount), Sub(32, amount), 32 - s);
    if s == 0 {
      SignExtendAt32(Shr(rt, amount));
      ZeroShift(rt);
    } else {
      FloorShift(rt, s);
      SignExtendExact(rt / Pow2(s), 32 - s);
    }
  }

  lemma ZeroShift(rt: Word)
    ensures ShiftRightArithmetic(rt, 0) == rt
  {
    assert Pow2(0) == 1;
  }

  /** `sra` and `srav` compute the arithmetic shift exactly when the amount is not a multiple
      of 32 or the operand is zero. */
  lemma SraExact(shamt: Word, rs: Word, rt: Word)
    requires shamt < 32
    ensures Arithmetic(0x03, shamt, rs, rt) == Ok(ShiftRightArithmetic(rt, shamt)) <==> shamt != 0 || rt == 0
    ensures Arithmetic(0x07, shamt, rs, rt) == Ok(ShiftRightArithmetic(rt, rs % 32)) <==> rs % 32 != 0 || rt == 0
  {
    hide SignExtend, Shr, ShiftRightArithmetic;
    ShiftBySra(rt, shamt);
    ShiftBySra(rt, rs);
  }

  /** A concrete failure: shifting 1 right by 0 yields 0. */
  lemma SraByZeroFails()
    ensures Arithmetic(0x03, 0, 0, 1) == Ok(0) && ShiftRightArithmetic(1, 0) == 1
  {
    ShiftBySra(1, 0);
    ZeroShift(1);
  }

  lemma TopBit(bit: int, p: int)
    requires 0 <= bit <= 1
    ensures bit * p == if bit == 1 then p else 0
  {
  }

  /** `LeadingOnes` is the length of the run of ones at the top of the word. */
  lemma {:induction false} LeadingOnesBelowExact(x: Word, k: nat)
    requires k <= 32
    ensures var n := LeadingOnesBelow(x, k);
      && x % Pow2(k) >= Pow2(k) - Pow2(k - n)
      && (n < k ==> x % Pow2(k) < Pow2(k) - Pow2(k - n - 1))
    decreases k
  {
    hide Pow2;
    if k > 0 {
      PowDouble(k);
      ModDouble(x, Pow2(k - 1));
      LeadingOnesBelowExact(x, k - 1);
      TopBit(x / Pow2(k - 1) % 2, Pow2(k - 1));
    }
  }

  /** `clo` counts the leading ones and `clz` the leading zeros. */
  lemma CountExact(rs: Word, rt: Word)
    ensures var n := LeadingOnes(rs);
      && Special2(0x21, rs, rt) == Ok(n) && n <= 32
      && rs >= WORD_LIMIT - Pow2(32 - n) && (n < 32 ==> rs < WORD_LIMIT - Pow2(31 - n))
    ensures var z := LeadingOnes(Not(rs));
      && Special2(0x20, rs, rt) == Ok(z) && z <= 32
      && rs < Pow2(32 - z) && (z < 32 ==> rs >= Pow2(31 - z))
  {
    hide Pow2, LeadingOnesBelow;
    Pow2At32();
    LeadingOnesBelowExact(rs, 32);
    LeadingOnesBelowExact(Not(rs), 32);
  }

  /** Bit `i` of a number. */
  function Bit(x: nat, i: nat): int { DivShrinks(x, Pow2(i)); x / Pow2(i) % 2 }

  lemma BitZero(x: nat)
    ensures Bit(x, 0) == x % 2
  {
    assert Pow2(0) == 1;
  }

  lemma BitBelow(x: nat, i: nat)
    requires i > 0
    ensures Bit(x, i) == Bit(x / 2, i - 1)
  {
    hide Pow2;
    PowDouble(i);
    DivDiv(x, 2, Pow2(i - 1));
  }

  lemma DoubleParts(q: int, b: int)
    requires 0 <= b <= 1
    ensures (2 * q + b) / 2 == q && (2 * q + b) % 2 == b
  {
  }

  /** One step of each bitwise operator. */
  lemma AndStep(x: nat, y: nat)
    ensures And(x, y) / 2 == And(x / 2, y / 2) && And(x, y) % 2 == (if x % 2 == 1 && y % 2 == 1 then 1 else 0)
  {
    var b := if x % 2 == 1 && y % 2 == 1 then 1 else 0;
    DoubleParts(And(x / 2, y / 2), b);
    assert And(x, y) == 2 * And(x / 2, y / 2) + b by {
      if x == 0 {
        AndNothing(y / 2);
      } else if y == 0 {
        AndNothing(x / 2);
      }
    }
  }

  lemma OrStep(x: nat, y: nat)
    ensures Or(x, y) / 2 == Or(x / 2, y / 2) && Or(x, y) % 2 == (if x % 2 == 1 || y % 2 == 1 then 1 else 0)
  {
    var b := if x % 2 == 1 || y % 2 == 1 then 1 else 0;
    DoubleParts(Or(x / 2, y / 2), b);
    assert Or(x, y) == 2 * Or(x / 2, y / 2) + b;
  }

  lemma XorStep(x: nat, y: nat)
    ensures Xor(x, y) / 2 == Xor(x / 2, y / 2) && Xor(x, y) % 2 == (if x % 2 != y % 2 then 1 else 0)
  {
    var b := if x % 2 != y % 2 then 1 else 0;
    DoubleParts(Xor(x / 2, y / 2), b);
    assert Xor(x, y) == 2 * Xor(x / 2, y / 2) + b;
  }

  lemma {:induction false} LogicBits(x: nat, y: nat, i: nat)
    ensures Bit(And(x, y), i) == if Bit(x, i) == 1 && Bit(y, i) == 1 then 1 else 0
    ensures Bit(Or(x, y), i) == if Bit(x, i) == 1 || Bit(y, i) == 1 then 1 else 0
    ensures Bit(Xor(x, y), i) == if Bit(x, i) != Bit(y, i) then 1 else 0
    decreases i
  {
    hide And, Or, Xor, Bit;
    AndStep(x, y);
    OrStep(x, y);
    XorStep(x, y);
    if i == 0 {
      BitZero(x);
      BitZero(y);
      BitZero(And(x, y));
      BitZero(Or(x, y));
      BitZero(Xor(x, y));
    } else {
      LogicBits(x / 2, y / 2, i - 1);
      BitBelow(x, i);
      BitBelow(y, i);
      BitBelow(And(x, y), i);
      BitBelow(Or(x, y), i);
      BitBelow(Xor(x, y), i);
    }
  }

  lemma {:induction false} ComplementBit(x: nat, n: nat, i: nat)
    requires x < Pow2(n) && i < n
    ensures Bit(Pow2(n) - 1 - x, i) == 1 - Bit(x, i)
    decreases i
  {
    hide Bit, Pow2;
    PowDouble(n);
    var y := Pow2(n) - 1 - x;
    assert y / 2 == Pow2(n - 1) - 1 - x / 2 && y % 2 == 1 - x % 2;
    if i == 0 {
      BitZero(x);
      BitZero(y);
    } else {
      BitBelow(x, i);
      BitBelow(y, i);
      ComplementBit(x / 2, n - 1, i - 1);
    }
  }

  /** `and`, `or`, `xor` and `nor` act on each of the 32 bits alone. */
  lemma LogicExact(shamt: Word, rs: Word, rt: Word, i: nat)
    requires i < 32
    ensures var bit := (fun: Word) => Arithmetic(fun, shamt, rs, rt);
      && bit(0x24).Ok? && Bit(bit(0x24).value, i) == (if Bit(rs, i) == 1 && Bit(rt, i) == 1 then 1 else 0)
      && bit(0x25).Ok? && Bit(bit(0x25).value, i) == (if Bit(rs, i) == 1 || Bit(rt, i) == 1 then 1 else 0)
      && bit(0x26).Ok? && Bit(bit(0x26).value, i) == (if Bit(rs, i) != Bit(rt, i) then 1 else 0)
      && bit(0x27).Ok? && Bit(bit(0x27).value, i) == (if Bit(rs, i) == 1 || Bit(rt, i) == 1 then 0 else 1)
  {
    hide Bit, And, Or, Xor, Pow2, Shl, Shr, SignExtend;
    LogicBits(rs, rt, i);
    BitRange(rs, i);
    BitRange(rt, i);
    Pow2At32();
    ComplementBit(OrW(rs, rt), 32, i);
  }

  lemma BitRange(x: nat, i: nat)
    ensures Bit(x, i) == 0 || Bit(x, i) == 1
  {
    hide Pow2;
  }

  lemma AddFits(x: Word, y: Word)
    ensures Signed(Add(x, y)) == Signed(x) + Signed(y) <==> -0x8000_0000 <= Signed(x) + Signed(y) < 0x8000_0000
    ensures Add(x, y) == x + y <==> x + y < WORD_LIMIT
  {
    assert Add(x, y) == if x + y < WORD_LIMIT then x + y else x + y - WORD_LIMIT;
  }

  lemma SubFits(x: Word, y: Word)
    ensures Signed(Sub(x, y)) == Signed(x) - Signed(y) <==> -0x8000_0000 <= Signed(x) - Signed(y) < 0x8000_0000
    ensures Sub(x, y) == x - y <==> y <= x
  {
    assert Sub(x, y) == if y <= x then x - y else x - y + WORD_LIMIT;
  }

  /** Addition and subtraction are exact precisely when the true result fits: as signed numbers
      within the signed range, as unsigned ones within the unsigned range. */
  lemma AddSubExact(shamt: Word, rs: Word, rt: Word)
    ensures Arithmetic(0x21, shamt, rs, rt).Ok? && Arithmetic(0x23, shamt, rs, rt).Ok?
    ensures Arithmetic(0x20, shamt, rs, rt) == Arithmetic(0x21, shamt, rs, rt)
    ensures Arithmetic(0x22, shamt, rs, rt) == Arithmetic(0x23, shamt, rs, rt)
    ensures var sum, difference := Arithmetic(0x21, shamt, rs, rt).value, Arithmetic(0x23, shamt, rs, rt).value;
      && (Signed(sum) == Signed(rs) + Signed(rt) <==> -0x8000_0000 <= Signed(rs) + Signed(rt) < 0x8000_0000)
      && (Signed(difference) == Signed(rs) - Signed(rt) <==> -0x8000_0000 <= Signed(rs) - Signed(rt) < 0x8000_0000)
      && (sum == rs + rt <==> rs + rt < WORD_LIMIT)
      && (difference == rs - rt <==> rt <= rs)
  {
    hide OrW, XorW, And, Shl, Shr, SignExtend, Add, Sub, Signed;
    AddFits(rs, rt);
    SubFits(rs, rt);
  }

  /** `mul` leaves the low word of the product, the same for signed and unsigned operands. */
  lemma MulLowWord(rs: Word, rt: Word)
    ensures Special2(0x02, rs, rt) == Ok(Signed(rs) * Signed(rt) % WORD_LIMIT) == Ok(rs * rt % WORD_LIMIT)
  {
    var k, l := if rs < 0x8000_0000 then 0 else 1, if rt < 0x8000_0000 then 0 else 1;
    var x, y := Signed(rs), Signed(rt);
    assert rs == x + WORD_LIMIT * k && rt == y + WORD_LIMIT * l;
    var extra := k * y + l * x + k * l * WORD_LIMIT;
    assert rs * rt == x * y + WORD_LIMIT * extra;
    ModAddMultiple(x * y, WORD_LIMIT, extra);
  }
}
