/** Machine words and bytes: the `u8`, `u32` and `u64` of the emulator as bounded integers,
    with every wrap-around and shift written out. Release and development builds both run
    with overflow checks off, so `+`, `-`, `*` wrap and shift amounts are taken modulo 32. */
module Words {
  const WORD_LIMIT := 0x1_0000_0000
  const LONG_LIMIT := 0x1_0000_0000_0000_0000

  type Byte = x: int | 0 <= x < 0x100
  type Word = x: int | 0 <= x < 0x1_0000_0000
  type Long = x: int | 0 <= x < 0x1_0000_0000_0000_0000

  datatype Option<+T> = None | Some(value: T)

  /** Wrapping `u32` addition, subtraction and multiplication. */
  function Add(x: Word, y: Word): Word { (x + y) % WORD_LIMIT }
  function Sub(x: Word, y: Word): Word { (x - y) % WORD_LIMIT }

  function Pow2(k: nat): (p: int)
    ensures p >= 1
    decreases k
  {
    if k == 0 then 1 else 2 * Pow2(k - 1)
  }

  /** `x << k` and `x >> k`: the amount is masked to five bits. */
  function Shl(x: Word, k: Word): Word { x * Pow2(k % 32) % WORD_LIMIT }

  function Shr(x: Word, k: Word): (r: Word)
    ensures r <= x
  {
    DivShrinks(x, Pow2(k % 32));
    x / Pow2(k % 32)
  }

  lemma DivShrinks(x: nat, d: int)
    requires d >= 1
    ensures 0 <= x / d <= x
  {
    if x < d {
      DivModUnique(x, d, 0, x);
    } else {
      MulNonNegative(d - 1, x / d);
    }
  }

  lemma MulNonNegative(x: nat, y: nat)
    ensures x * y >= 0
  {
  }

  lemma {:induction false} Pow2Sum(i: nat, j: nat)
    ensures Pow2(i + j) == Pow2(i) * Pow2(j)
    decreases i
  {
    if i > 0 {
      Pow2Sum(i - 1, j);
      var p, q := Pow2(i - 1), Pow2(j);
      assert 2 * (p * q) == (2 * p) * q;
    }
  }

  /** Bitwise operators, one bit at a time. */
  function And(x: nat, y: nat): (r: nat)
    ensures r <= x && r <= y
    decreases x
  {
    if x == 0 || y == 0 then 0
    else 2 * And(x / 2, y / 2) + (if x % 2 == 1 && y % 2 == 1 then 1 else 0)
  }

  function Or(x: nat, y: nat): nat
    decreases x + y
  {
    if x == 0 && y == 0 then 0
    else 2 * Or(x / 2, y / 2) + (if x % 2 == 1 || y % 2 == 1 then 1 else 0)
  }

  function Xor(x: nat, y: nat): nat
    decreases x + y
  {
    if x == 0 && y == 0 then 0
    else 2 * Xor(x / 2, y / 2) + (if x % 2 != y % 2 then 1 else 0)
  }

  function Not(x: Word): Word { 0xFFFF_FFFF - x }

  /** The three operators are tied together as on any machine word. */
  lemma {:induction false} OrXorAnd(x: nat, y: nat)
    ensures Or(x, y) == x + y - And(x, y)
    ensures Xor(x, y) == x + y - 2 * And(x, y)
    decreases x + y
  {
    if x != 0 || y != 0 {
      OrXorAnd(x / 2, y / 2);
    }
  }

  lemma {:induction false} OrXorBound(x: nat, y: nat, k: nat)
    requires x < Pow2(k) && y < Pow2(k)
    ensures Or(x, y) < Pow2(k) && Xor(x, y) < Pow2(k)
    decreases k
  {
    if k != 0 && (x != 0 || y != 0) {
      OrXorBound(x / 2, y / 2, k - 1);
    }
  }

  function OrW(x: Word, y: Word): Word {
    Pow2At32(); OrXorBound(x, y, 32);
    Or(x, y)
  }

  function XorW(x: Word, y: Word): Word {
    Pow2At32(); OrXorBound(x, y, 32);
    Xor(x, y)
  }

  lemma Pow2At32()
    ensures Pow2(32) == WORD_LIMIT
  {
    assert Pow2(8) == 0x100;
    assert Pow2(16) == 0x1_0000;
    assert Pow2(24) == 0x100_0000;
  }

  /** Masking with an odd number keeps the lowest bit. */
  lemma AndOdd(x: nat, m: nat)
    ensures And(x, 2 * m + 1) == 2 * And(x / 2, m) + x % 2
  {
    assert (2 * m + 1) / 2 == m && (2 * m + 1) % 2 == 1;
    if x == 0 {
      assert And(0, m) == 0;
    }
  }

  /** Masking with `2^k - 1` is the remainder modulo `2^k`. */
  lemma {:induction false} AndLowMask(x: nat, k: nat)
    ensures And(x, Pow2(k) - 1) == x % Pow2(k)
    decreases k
  {
    hide And;
    if k == 0 {
      AndNothing(x);
    } else {
      var p := Pow2(k - 1);
      AndLowMask(x / 2, k - 1);
      HalfMod(x, p);
      AndOdd(x, p - 1);
    }
  }

  lemma AndNothing(x: nat)
    ensures And(x, 0) == 0 && And(0, x) == 0
  {
  }

  lemma HalfMod(x: nat, p: int)
    requires p >= 1
    ensures x % (2 * p) == 2 * (x / 2 % p) + x % 2
  {
    var q, r := x / 2 / p, x / 2 % p;
    assert x / 2 == p * q + r;
    assert x == 2 * (p * q + r) + x % 2;
    assert x == (2 * p) * q + (2 * r + x % 2);
    DivModUnique(x, 2 * p, q, 2 * r + x % 2);
  }

  lemma DivModUnique(x: int, d: int, q: int, r: int)
    requires d >= 1 && 0 <= r < d && x == d * q + r
    ensures x / d == q && x % d == r
  {
    SameQuotient(d, q, r, x / d, x % d);
  }

  lemma SameQuotient(d: int, q: int, r: int, q': int, r': int)
    requires d >= 1 && 0 <= r < d && 0 <= r' < d && d * q + r == d * q' + r'
    ensures q == q' && r == r'
  {
    MulDistance(d, q, q');
    MulDistance(d, q', q);
  }

  lemma MulDistance(d: int, q: int, q': int)
    requires d >= 1
    ensures q > q' ==> d * q >= d * q' + d
  {
    if q > q' {
      var gap := q - q' - 1;
      MulNonNegative(d, gap);
      assert q == q' + 1 + gap;
      assert d * (q' + 1 + gap) == d * q' + d + d * gap;
    }
  }

  /** Joining a value below `2^k` with a multiple of `2^k` is addition. */
  lemma {:induction false} OrDisjoint(lo: nat, hi: nat, k: nat)
    requires lo < Pow2(k)
    ensures Or(lo, hi * Pow2(k)) == lo + hi * Pow2(k)
    decreases k
  {
    if k == 0 {
      OrXorAnd(0, hi);
    } else {
      var p := Pow2(k - 1);
      assert hi * Pow2(k) == 2 * (hi * p);
      OrDisjoint(lo / 2, hi, k - 1);
      if lo == 0 && hi * p == 0 {
      } else {
        assert (2 * (hi * p)) / 2 == hi * p && (2 * (hi * p)) % 2 == 0;
      }
    }
  }

  lemma OrComm(x: nat, y: nat)
    ensures Or(x, y) == Or(y, x)
  {
    OrXorAnd(x, y);
    OrXorAnd(y, x);
    AndComm(x, y);
  }

  lemma {:induction false} AndComm(x: nat, y: nat)
    ensures And(x, y) == And(y, x)
    decreases x
  {
    if x != 0 && y != 0 {
      AndComm(x / 2, y / 2);
    }
  }

  /** `to_be_bytes` and `from_be_bytes`. */
  function BytesOf(w: Word): (b: seq<Byte>)
    ensures |b| == 4
  {
    [w / 0x100_0000, w / 0x1_0000 % 0x100, w / 0x100 % 0x100, w % 0x100]
  }

  function WordOf(b: seq<Byte>): Word
    requires |b| == 4
  {
    var b0: int, b1: int, b2: int, b3: int := b[0], b[1], b[2], b[3];
    b0 * 0x100_0000 + b1 * 0x1_0000 + b2 * 0x100 + b3
  }

  lemma WordRoundTrip(w: Word)
    ensures WordOf(BytesOf(w)) == w
  {
    var q0, q1, q2: int := w / 0x100_0000, w / 0x1_0000, w / 0x100;
    assert q1 == 0x100 * q0 + q1 % 0x100 && q2 == 0x100 * q1 + q2 % 0x100 && w == 0x100 * q2 + w % 0x100 by {
      DivDiv(w, 0x100, 0x100);
      DivDiv(w, 0x1_0000, 0x100);
    }
  }

  lemma DivDiv(x: nat, a: int, b: int)
    requires a >= 1 && b >= 1
    ensures a * b >= 1 && x / (a * b) == x / a / b
  {
    var q, r := x / a, x % a;
    var q', r' := q / b, q % b;
    assert x == a * q + r && q == b * q' + r';
    assert a * (b * q' + r') == (a * b) * q' + a * r' by {
      assert a * (b * q' + r') == a * (b * q') + a * r';
    }
    MulNonNegative(a, r');
    MulDistance(a, b, r');
    MulNonNegative(a - 1, b - 1);
    DivModUnique(x, a * b, q', a * r' + r);
  }

  lemma BytesRoundTrip(b: seq<Byte>)
    requires |b| == 4
    ensures BytesOf(WordOf(b)) == b
  {
    var w, b0: int, b1: int, b2: int, b3: int := WordOf(b), b[0], b[1], b[2], b[3];
    DivModUnique(w, 0x100_0000, b0, b1 * 0x1_0000 + b2 * 0x100 + b3);
    DivModUnique(w, 0x1_0000, b0 * 0x100 + b1, b2 * 0x100 + b3);
    DivModUnique(w, 0x100, b0 * 0x1_0000 + b1 * 0x100 + b2, b3);
    assert (b0 * 0x100 + b1) % 0x100 == b1;
    assert (b0 * 0x1_0000 + b1 * 0x100 + b2) % 0x100 == b2;
  }

  function LongBytesOf(w: Long): (b: seq<Byte>)
    ensures |b| == 8
  {
    BytesOf(w / WORD_LIMIT) + BytesOf(w % WORD_LIMIT)
  }

  function LongOf(b: seq<Byte>): Long
    requires |b| == 8
  {
    WordOf(b[..4]) * WORD_LIMIT + WordOf(b[4..])
  }

  lemma LongRoundTrip(w: Long)
    ensures LongOf(LongBytesOf(w)) == w
  {
    var b := LongBytesOf(w);
    assert b[..4] == BytesOf(w / WORD_LIMIT) && b[4..] == BytesOf(w % WORD_LIMIT);
    WordRoundTrip(w / WORD_LIMIT);
    WordRoundTrip(w % WORD_LIMIT);
  }

  /** The powers of 256, place values of the bytes of a number. */
  function Pow256(k: nat): (p: int)
    ensures p >= 1
    decreases k
  {
    if k == 0 then 1 else 0x100 * Pow256(k - 1)
  }

  lemma SmallPowers()
    ensures Pow256(0) == 1 && Pow256(1) == 0x100 && Pow256(2) == 0x1_0000 && Pow256(3) == 0x100_0000
    ensures Pow256(4) == WORD_LIMIT
  {
  }

  /** Byte `i` of a word is its digit at place `3 - i`, highest first. */
  lemma WordDigits(w: Word, i: nat)
    requires i < 4
    ensures BytesOf(w)[i] == w / Pow256(3 - i) % 0x100
  {
    SmallPowers();
    if i == 0 {
      var d := w / 0x100_0000;
      DivModUnique(d, 0x100, 0, d);
    }
  }

  /** Byte `i` of the eight bytes of a 64-bit number is its digit at place `7 - i`. */
  lemma LongDigits(w: Long, i: nat)
    requires i < 8
    ensures LongBytesOf(w)[i] == w / Pow256(7 - i) % 0x100
  {
    hide BytesOf, Pow256;
    var hi, lo := w / WORD_LIMIT, w % WORD_LIMIT;
    SmallPowers();
    if i < 4 {
      WordDigits(hi, i);
      PlaceSum(4, 3 - i);
      DivDiv(w, WORD_LIMIT, Pow256(3 - i));
    } else {
      WordDigits(lo, i - 4);
      PlaceSum(7 - i, i - 4);
      PlaceSum(1, i - 4);
      PlaceSum(7 - i, i - 3);
      DigitOfRemainder(w, Pow256(7 - i), Pow256(i - 4));
    }
  }

  lemma {:induction false} PlaceSum(i: nat, j: nat)
    ensures Pow256(i + j) == Pow256(i) * Pow256(j)
    decreases i
  {
    if i > 0 {
      PlaceSum(i - 1, j);
      var p, q := Pow256(i - 1), Pow256(j);
      assert 0x100 * (p * q) == (0x100 * p) * q;
    }
  }

  /** A digit below a place is the same in the remainder by that place. */
  lemma DigitOfRemainder(w: nat, p: int, q: int)
    requires p >= 1 && q >= 1 && p * (0x100 * q) == WORD_LIMIT
    ensures w % WORD_LIMIT / p % 0x100 == w / p % 0x100
  {
    var h, r := w / WORD_LIMIT, w % WORD_LIMIT;
    var d, e := r / p, r % p;
    assert r == p * d + e;
    assert w == p * (0x100 * q * h + d) + e by {
      assert w == WORD_LIMIT * h + r;
      assert p * (0x100 * q * h) == p * (0x100 * q) * h;
      assert p * (0x100 * q * h + d) == p * (0x100 * q * h) + p * d;
    }
    DivModUnique(w, p, 0x100 * q * h + d, e);
    DivModUnique(0x100 * q * h + d, 0x100, q * h + d / 0x100, d % 0x100);
  }

  /** Two's-complement reading of a word: the `as i32` cast. */
  function Signed(w: Word): int { if w < 0x8000_0000 then w else w - WORD_LIMIT }

  /** The `as u32` cast of a signed value. */
  function Unsigned(x: int): Word { x % WORD_LIMIT }

  function Zeros(n: nat): (s: seq<Byte>)
    ensures |s| == n && forall i :: 0 <= i < n ==> s[i] == 0
  {
    seq(n, _ => 0)
  }
}
