/** 32-bit two's complement arithmetic as the IR of the compiler documents it:
    sums, differences, products and left shifts wrap, comparisons give -1 or 0,
    division truncates towards zero, and the bitwise operators act on the
    two's complement representation.

    Words are kept as mathematical integers in the signed range. The bitwise
    operators are defined on unbounded two's complement numbers, by recursion on
    the bits, and restrict to 32 bits because they never leave the range. */
module Int32 {

  const TWO31: int := 0x8000_0000
  const TWO32: int := 0x1_0000_0000
  const INT_MIN: int32 := -0x8000_0000
  const INT_MAX: int32 := 0x7fff_ffff

  type int32 = x: int | -0x8000_0000 <= x < 0x8000_0000

  // ----- Powers of two, quotients and remainders -----

  function Pow2(n: nat): (p: int)
    ensures p > 0
    ensures n > 0 ==> p % 2 == 0
  {
    if n == 0 then 1 else 2 * Pow2(n - 1)
  }

  lemma Pow2Is32()
    ensures Pow2(31) == TWO31 && Pow2(32) == TWO32
  {
    assert Pow2(8) == 256;
    assert Pow2(16) == 65536;
    assert Pow2(24) == 0x100_0000;
  }

  lemma {:induction false} Pow2Add(m: nat, n: nat)
    ensures Pow2(m + n) == Pow2(m) * Pow2(n)
  {
    if m > 0 {
      Pow2Add(m - 1, n);
      assert Pow2(m) * Pow2(n) == 2 * (Pow2(m - 1) * Pow2(n));
    }
  }

  lemma {:induction false} Pow2Monotone(m: nat, n: nat)
    requires m < n
    ensures 2 * Pow2(m) <= Pow2(n)
  {
    if m + 1 < n {
      Pow2Monotone(m, n - 1);
    }
  }

  lemma MulMonotone(a: int, b: int, c: int)
    requires a <= b && 0 <= c
    ensures a * c <= b * c
    ensures 0 <= a ==> 0 <= a * c
  {}

  ghost predicate IsPowerOfTwo(n: int) { exists s: nat :: n == Pow2(s) }

  /** Quotient and remainder are unique. */
  lemma DivModUnique(x: int, m: int, q: int, r: int)
    requires x == q * m + r && 0 <= r < m
    ensures x / m == q && x % m == r
  {
    var q', r' := x / m, x % m;
    assert x == q' * m + r' by { assert x == m * (x / m) + x % m; }
    if q' < q {
      MulMonotone(q' + 1, q, m);
    } else if q < q' {
      MulMonotone(q + 1, q', m);
    }
  }

  /** Adding a multiple of the modulus does not change the remainder. */
  lemma ModShift(x: int, k: int, m: int)
    requires m > 0
    ensures (x + k * m) % m == x % m
    ensures (x + k * m) / m == x / m + k
  {
    assert x + k * m == (x / m + k) * m + x % m;
    DivModUnique(x + k * m, m, x / m + k, x % m);
  }

  /** Splits off the lowest bit of a remainder by a power of two. */
  lemma HalveMod(x: int, s: nat)
    requires s > 0
    ensures x % Pow2(s) == x % 2 + 2 * ((x / 2) % Pow2(s - 1))
    ensures x / Pow2(s) == (x / 2) / Pow2(s - 1)
  {
    var p := Pow2(s - 1);
    var q, r := (x / 2) / p, (x / 2) % p;
    assert x == 2 * (q * p + r) + x % 2;
    assert 2 * (q * p) == q * (2 * p);
    DivModUnique(x, 2 * p, q, 2 * r + x % 2);
  }

  // ----- Wrapping -----

  /** The signed word congruent to x modulo 2^32. */
  function Wrap(x: int): (r: int32)
    ensures r % TWO32 == x % TWO32
    ensures -TWO31 <= x < TWO31 ==> r == x
  {
    var u := x % TWO32;
    if u < TWO31 then u else u - TWO32
  }

  function Unsigned(x: int32): (u: int)
    ensures 0 <= u < TWO32
    ensures Wrap(u) == x
  {
    if x < 0 then x + TWO32 else x
  }

  lemma WrapInt32(x: int32)
    ensures Wrap(x) == x && Wrap(1 * x) == x
  {}

  lemma WrapShift(x: int, k: int)
    ensures Wrap(x + k * TWO32) == Wrap(x)
  {
    ModShift(x, k, TWO32);
  }

  lemma Distribute(x: int, k: int, m: int, y: int)
    ensures (x + k * m) * y == x * y + (k * y) * m
    ensures y * (x + k * m) == x * y + (k * y) * m
  {
    assert (k * m) * y == (k * y) * m;
  }

  /** Wrapping early does not change a sum, difference or product. */
  lemma WrapAdd(x: int, y: int)
    ensures Wrap(Wrap(x) + y) == Wrap(x + y)
    ensures Wrap(y + Wrap(x)) == Wrap(y + x)
    ensures Wrap(y - Wrap(x)) == Wrap(y - x)
  {
    var k := WrapMultiple(x);
    WrapShift(x + y, k);
    WrapShift(y - x, -k);
  }

  lemma WrapMul(x: int, y: int)
    ensures Wrap(Wrap(x) * y) == Wrap(x * y)
    ensures Wrap(y * Wrap(x)) == Wrap(y * x)
  {
    var k := WrapMultiple(x);
    hide Wrap;
    Distribute(x, k, TWO32, y);
    WrapShift(x * y, k * y);
  }

  /** Wrapping changes a number by a multiple of 2^32. */
  lemma WrapDifference(x: int)
    ensures (Wrap(x) - x) % 0x1_0000_0000 == 0
  {
    var k := WrapMultiple(x);
    DivModUnique(k * TWO32, TWO32, k, 0);
  }

  lemma WrapMultiple(x: int) returns (k: int)
    ensures Wrap(x) == x + k * TWO32
  {
    k := if x % TWO32 < TWO31 then -(x / TWO32) else -(x / TWO32) - 1;
  }

  // ----- Bitwise operators -----

  function BitAnd(x: int, y: int): int
    decreases if x < 0 then -x else x
  {
    if x == 0 then 0
    else if x == -1 then y
    else (x % 2) * (y % 2) + 2 * BitAnd(x / 2, y / 2)
  }

  function BitNot(x: int): int { -1 - x }

  function BitOr(x: int, y: int): int { BitNot(BitAnd(BitNot(x), BitNot(y))) }

  function BitEor(x: int, y: int): int
    decreases if x < 0 then -x else x
  {
    if x == 0 then y
    else if x == -1 then BitNot(y)
    else (x % 2 + y % 2) % 2 + 2 * BitEor(x / 2, y / 2)
  }

  /** Bit i of the two's complement representation. */
  predicate Bit(x: int, i: nat) { (x / Pow2(i)) % 2 == 1 }

  lemma BitHalve(x: int, i: nat)
    ensures i > 0 ==> Bit(x, i) == Bit(x / 2, i - 1)
    ensures Bit(x, 0) == (x % 2 == 1)
  {
    if i > 0 {
      HalveMod(x, i);
    }
  }

  lemma {:induction false} BitConst(i: nat)
    ensures !Bit(0, i) && Bit(-1, i)
  {
    if i > 0 {
      BitConst(i - 1);
      BitHalve(0, i);
      BitHalve(-1, i);
    }
  }

  lemma {:induction false} BitOfNot(x: int, i: nat)
    ensures Bit(BitNot(x), i) == !Bit(x, i)
    decreases i
  {
    BitHalve(x, i);
    BitHalve(BitNot(x), i);
    if i > 0 {
      assert BitNot(x) / 2 == BitNot(x / 2);
      BitOfNot(x / 2, i - 1);
    }
  }

  /** The recursive operators are the bitwise ones. */
  lemma {:induction false} BitOfAnd(x: int, y: int, i: nat)
    ensures Bit(BitAnd(x, y), i) == (Bit(x, i) && Bit(y, i))
    decreases if x < 0 then -x else x
  {
    BitConst(i);
    if x != 0 && x != -1 {
      BitHalve(x, i);
      BitHalve(y, i);
      BitHalve(BitAnd(x, y), i);
      var low := (x % 2) * (y % 2);
      assert 0 <= low < 2;
      assert BitAnd(x, y) / 2 == BitAnd(x / 2, y / 2);
      if i > 0 {
        BitOfAnd(x / 2, y / 2, i - 1);
      }
    }
  }

  lemma BitOfOr(x: int, y: int, i: nat)
    ensures Bit(BitOr(x, y), i) == (Bit(x, i) || Bit(y, i))
  {
    BitOfNot(x, i);
    BitOfNot(y, i);
    BitOfAnd(BitNot(x), BitNot(y), i);
    BitOfNot(BitAnd(BitNot(x), BitNot(y)), i);
  }

  lemma {:induction false} BitOfEor(x: int, y: int, i: nat)
    ensures Bit(BitEor(x, y), i) == (Bit(x, i) != Bit(y, i))
    decreases if x < 0 then -x else x
  {
    BitConst(i);
    BitOfNot(y, i);
    if x != 0 && x != -1 {
      BitHalve(x, i);
      BitHalve(y, i);
      BitHalve(BitEor(x, y), i);
      assert BitEor(x, y) / 2 == BitEor(x / 2, y / 2);
      if i > 0 {
        BitOfEor(x / 2, y / 2, i - 1);
      }
    }
  }

  /** Numbers in [-2^n, 2^n) are closed under the operators. */
  predicate Fits(x: int, n: nat) { -Pow2(n) <= x < Pow2(n) }

  lemma {:induction false} AndFits(x: int, y: int, n: nat)
    requires Fits(x, n) && Fits(y, n)
    ensures Fits(BitAnd(x, y), n)
    decreases n
  {
    if x != 0 && x != -1 {
      AndFits(x / 2, y / 2, n - 1);
      assert 0 <= (x % 2) * (y % 2) <= 1;
    }
  }

  lemma {:induction false} EorFits(x: int, y: int, n: nat)
    requires Fits(x, n) && Fits(y, n)
    ensures Fits(BitEor(x, y), n)
    decreases n
  {
    if x != 0 && x != -1 {
      EorFits(x / 2, y / 2, n - 1);
    }
  }

  lemma {:induction false} AndCommutes(x: int, y: int)
    ensures BitAnd(x, y) == BitAnd(y, x)
    decreases (if x < 0 then -x else x) + (if y < 0 then -y else y)
  {
    AndLeaf(x);
    AndLeaf(y);
    if x != 0 && x != -1 && y != 0 && y != -1 {
      AndCommutes(x / 2, y / 2);
    }
  }

  lemma {:induction false} AndLeaf(x: int)
    ensures BitAnd(x, 0) == 0 && BitAnd(x, -1) == x
    decreases if x < 0 then -x else x
  {
    if x != 0 && x != -1 {
      AndLeaf(x / 2);
    }
  }

  lemma OrCommutes(x: int, y: int)
    ensures BitOr(x, y) == BitOr(y, x)
  {
    AndCommutes(BitNot(x), BitNot(y));
  }

  lemma {:induction false} EorLeaf(x: int)
    ensures BitEor(x, 0) == x && BitEor(x, -1) == BitNot(x)
    decreases if x < 0 then -x else x
  {
    if x != 0 && x != -1 {
      EorLeaf(x / 2);
      if x % 2 == 0 {
        assert x == 2 * (x / 2);
      } else {
        assert x == 2 * (x / 2) + 1;
      }
    }
  }

  lemma {:induction false} EorCommutes(x: int, y: int)
    ensures BitEor(x, y) == BitEor(y, x)
    decreases (if x < 0 then -x else x) + (if y < 0 then -y else y)
  {
    EorLeaf(x);
    EorLeaf(y);
    if x != 0 && x != -1 && y != 0 && y != -1 {
      EorCommutes(x / 2, y / 2);
    }
  }

  /** Masking with 2^s - 1 is the remainder by 2^s. */
  lemma {:induction false} AndMask(x: int, s: nat)
    ensures BitAnd(x, Pow2(s) - 1) == x % Pow2(s)
    decreases s
  {
    var m := Pow2(s) - 1;
    AndLeaf(x);
    if s == 0 {
    } else if x == 0 {
      DivModUnique(0, Pow2(s), 0, 0);
    } else if x == -1 {
      DivModUnique(-1, Pow2(s), -1, m);
    } else {
      AndMask(x / 2, s - 1);
      HalveMod(x, s);
      assert m / 2 == Pow2(s - 1) - 1 && m % 2 == 1;
    }
  }

  /** Masking with the sign bit. */
  lemma {:induction false} AndSign(x: int, n: nat)
    requires Fits(x, n)
    ensures BitAnd(x, -Pow2(n)) == if x < 0 then -Pow2(n) else 0
    decreases n
  {
    if x != 0 && x != -1 {
      AndSign(x / 2, n - 1);
      assert (-Pow2(n)) / 2 == -Pow2(n - 1) && (-Pow2(n)) % 2 == 0;
      assert (x % 2) * ((-Pow2(n)) % 2) == 0;
    }
  }

  lemma {:induction false} EorSign(x: int, y: int)
    ensures BitEor(x, y) < 0 <==> (x < 0) != (y < 0)
    decreases if x < 0 then -x else x
  {
    if x != 0 && x != -1 {
      EorSign(x / 2, y / 2);
    }
  }

  lemma {:induction false} EorZero(x: int, y: int)
    ensures BitEor(x, y) == 0 <==> x == y
    decreases if x < 0 then -x else x
  {
    if x != 0 && x != -1 {
      EorZero(x / 2, y / 2);
    }
  }

  /** Oring in a single bit. */
  lemma {:induction false} OrBit(x: int, n: nat)
    ensures BitOr(x, Pow2(n)) == if Bit(x, n) then x else x + Pow2(n)
    decreases n
  {
    var y := BitNot(x);
    var m := BitNot(Pow2(n));
    AndLeaf(y);
    BitHalve(x, n);
    if y == 0 || y == -1 {
      BitConst(n);
    } else if n == 0 {
      assert m / 2 == -1 && m % 2 == 0;
      AndLeaf(y / 2);
      assert (y % 2) * 0 == 0;
    } else {
      OrBit(x / 2, n - 1);
      assert m / 2 == BitNot(Pow2(n - 1)) && m % 2 == 1;
      assert y / 2 == BitNot(x / 2);
    }
  }

  // ----- The operators of the IR -----

  function And32(x: int32, y: int32): int32
  {
    Pow2Is32(); AndFits(x, y, 31);
    BitAnd(x, y)
  }

  function Or32(x: int32, y: int32): int32
  {
    Pow2Is32(); AndFits(BitNot(x), BitNot(y), 31);
    BitOr(x, y)
  }

  function Eor32(x: int32, y: int32): int32
  {
    Pow2Is32(); EorFits(x, y, 31);
    BitEor(x, y)
  }

  function Truth(b: bool): int32 { if b then -1 else 0 }

  function Lsl32(x: int32, n: nat): int32 { Wrap(x * Pow2(n)) }

  /** Logical right shift; a shift by 32 or more gives 0. */
  function Lsr32(x: int32, n: nat): int32
  {
    Wrap(Unsigned(x) / Pow2(n))
  }

  function Asr32(x: int32, n: nat): (r: int32)
  {
    AsrBound(x, n);
    x / Pow2(n)
  }

  lemma {:induction false} AsrBound(x: int, n: nat)
    ensures x >= 0 ==> 0 <= x / Pow2(n) <= x
    ensures x < 0 ==> x <= x / Pow2(n) < 0
    decreases n
  {
    if n > 0 {
      HalveMod(x, n);
      AsrBound(x / 2, n - 1);
    }
  }

  function Abs(x: int): nat { if x < 0 then -x else x }

  /** Quotient rounded towards zero, before wrapping. */
  function Quot(a: int, b: int): int
    requires b != 0
  {
    if (a < 0) == (b < 0) then Abs(a) / Abs(b) else -(Abs(a) / Abs(b))
  }

  /** Remainder with the sign of the dividend. */
  function Rem(a: int, b: int): int
    requires b != 0
  {
    if a < 0 then -(Abs(a) % Abs(b)) else Abs(a) % Abs(b)
  }

  /** Truncating division is characterised by its identity, the size of the
      remainder and the sign of the remainder. */
  lemma QuotRem(a: int, b: int)
    requires b != 0
    ensures a == Quot(a, b) * b + Rem(a, b)
    ensures Abs(Rem(a, b)) < Abs(b)
    ensures Rem(a, b) == 0 || (Rem(a, b) < 0) == (a < 0)
  {
    var q, r := Abs(a) / Abs(b), Abs(a) % Abs(b);
    assert Abs(a) == q * Abs(b) + r;
  }

  lemma DivShrinks(n: nat, d: int)
    requires d >= 1
    ensures 0 <= n / d <= n
    ensures 0 <= n % d <= n
  {
    var q, r := n / d, n % d;
    assert n == d * q + r;
    if q < 0 {
      MulMonotone(q, -1, d);
    }
    MulMonotone(1, d, if q >= 0 then q else 0);
  }

  lemma QuotFits(a: int32, b: int32)
    requires b != 0
    ensures Abs(Quot(a, b)) <= Abs(a)
    ensures -TWO31 <= Rem(a, b) < TWO31
  {
    DivShrinks(Abs(a), Abs(b));
  }

  function Div32(a: int32, b: int32): int32
    requires b != 0
  {
    Wrap(Quot(a, b))
  }

  function Mod32(a: int32, b: int32): int32
    requires b != 0
  {
    QuotFits(a, b);
    Rem(a, b)
  }
}
