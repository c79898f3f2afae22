/** The random number generator behind RND: a linear congruential generator over
    the hidden seed variable, and the proof that it visits every 32-bit seed
    before repeating one. */
module Rnd {
  import opened Int32

  const MULTIPLIER: int32 := 1664525
  const INCREMENT: int32 := 1013904223
  /** The inverse of the multiplier modulo 2^32, used only in proofs. */
  const INVERSE: int := 4276115653

  /** The seed after a draw. */
  function Next(seed: int32): int32
  {
    Wrap(Wrap(MULTIPLIER * seed) + INCREMENT)
  }

  /** The seed map in full. */
  lemma NextCongruent(seed: int32)
    ensures (Next(seed) - (1664525 * seed + 1013904223)) % 0x1_0000_0000 == 0
  {
    hide Wrap;
    WrapAdd(MULTIPLIER * seed, INCREMENT);
    WrapDifference(MULTIPLIER * seed + INCREMENT);
  }

  function Draws(seed: int32, n: nat): int32
  {
    if n == 0 then seed else Next(Draws(seed, n - 1))
  }

  datatype Drawn = Drawn(value: int32) | DivideByZero

  /** The hidden seed variable and the code emitted around it. */
  class Generator {
    var seed: int32

    constructor (initial: int32)
      ensures seed == initial
    {
      seed := initial;
    }

    /** RND(n) for a constant n greater than 1. */
    method RndPos(n: int32) returns (r: int32)
      requires n > 1
      modifies this
      ensures seed == Next(old(seed))
      ensures (seed - (1664525 * old(seed) + 1013904223)) % 0x1_0000_0000 == 0
      ensures 1 <= r <= n && (r - 1 - (seed % 0x8000_0000)) % n == 0
    {
      hide Next, And32, Mod32, Wrap;
      NextCongruent(seed);
      seed := Next(seed);
      DrawInRange(seed, n);
      r := And32(seed, INT_MAX);
      r := Mod32(r, n);
      r := Wrap(r + 1);
    }

    /** The routine called for RND of a variable. A negative argument reseeds. */
    method RndInt(n: int32) returns (d: Drawn)
      modifies this
      ensures n > 0 ==> seed == Next(old(seed))
      ensures n > 0 ==> (seed - (1664525 * old(seed) + 1013904223)) % 0x1_0000_0000 == 0
      ensures n > 0 ==> d.Drawn? && 1 <= d.value <= n && (d.value - 1 - (seed % 0x8000_0000)) % n == 0
      ensures n < 0 ==> d == Drawn(Wrap(0 - n)) && seed == Wrap(0 - n)
      ensures n == 0 ==> d == DivideByZero && seed == old(seed)
    {
      hide Next, And32, Mod32, Wrap;
      if n < 0 {
        seed := Wrap(0 - n);
        return Drawn(seed);
      }
      NextCongruent(seed);
      var next := Next(seed);
      var r := And32(next, INT_MAX);
      if n == 0 {
        return DivideByZero;
      }
      DrawInRange(next, n);
      r := Mod32(r, n);
      r := Wrap(r + 1);
      seed := next;
      d := Drawn(r);
    }
  }

  /** A draw from a seed is one more than a remainder of its low 31 bits. */
  lemma DrawInRange(seed: int32, n: int32)
    requires n > 0
    ensures var r := Wrap(Mod32(And32(seed, INT_MAX), n) + 1);
            1 <= r <= n && (r - 1 - (seed % 0x8000_0000)) % n == 0
  {
    hide And32, Mod32;
    MaskSeed(seed);
    RemBound(And32(seed, INT_MAX), n);
  }

  /** Clearing the sign bit leaves the low 31 bits. */
  lemma MaskSeed(x: int32)
    ensures And32(x, INT_MAX) == x % TWO31
  {
    Pow2Is32();
    AndMask(x, 31);
  }

  lemma RemBound(a: int32, n: int32)
    requires a >= 0 && n > 0
    ensures 0 <= Mod32(a, n) < n && (Mod32(a, n) - a) % n == 0
  {
    var q := a / n;
    assert a == n * q + a % n;
    assert Mod32(a, n) - a == 0 + (-q) * n;
    ModShift(0, -q, n);
  }

  // ----- The seed map is a permutation -----

  function Previous(seed: int32): int32 { Wrap(INVERSE * (seed - INCREMENT)) }

  lemma InverseMultiplies(x: int)
    ensures Wrap(INVERSE * (MULTIPLIER * x)) == Wrap(x)
    ensures Wrap(MULTIPLIER * (INVERSE * x)) == Wrap(x)
  {
    assert INVERSE * (MULTIPLIER * x) == x + (1657219 * x) * TWO32;
    assert MULTIPLIER * (INVERSE * x) == x + (1657219 * x) * TWO32;
    WrapShift(x, 1657219 * x);
  }

  lemma Permutation(x: int32)
    ensures Previous(Next(x)) == x
    ensures Next(Previous(x)) == x
  {
    hide Wrap;
    PreviousNext(x);
    var y := x - INCREMENT;
    WrapMul(INVERSE * y, MULTIPLIER);
    InverseMultiplies(y);
    WrapAdd(y, INCREMENT);
    WrapInt32(x);
  }

  lemma PreviousNext(x: int32)
    ensures Previous(Next(x)) == x
  {
    hide Wrap;
    var z := MULTIPLIER * x;
    WrapAdd(z, INCREMENT);
    WrapAdd(z + INCREMENT, -INCREMENT);
    WrapMul(Next(x) - INCREMENT, INVERSE);
    WrapMul(z, INVERSE);
    InverseMultiplies(x);
    WrapInt32(x);
  }

  // ----- One cycle of length 2^32 -----

  /** The iteration without wrapping. */
  function Unwrapped(x: int, n: nat): int
  {
    if n == 0 then x else MULTIPLIER * Unwrapped(x, n - 1) + INCREMENT
  }

  lemma {:induction false} UnwrappedDraws(x: int32, n: nat)
    ensures Draws(x, n) == Wrap(Unwrapped(x, n))
  {
    hide Wrap;
    if n == 0 {
      WrapInt32(x);
    } else {
      UnwrappedDraws(x, n - 1);
      var u := Unwrapped(x, n - 1);
      WrapMul(u, MULTIPLIER);
      WrapAdd(MULTIPLIER * u, INCREMENT);
    }
  }

  lemma {:induction false} UnwrappedSum(x: int, m: nat, n: nat)
    ensures Unwrapped(x, m + n) == Unwrapped(Unwrapped(x, m), n)
  {
    if n > 0 {
      UnwrappedSum(x, m, n - 1);
    }
  }

  /** 2^k draws act as x -> x + 2^k * (4 * Slope(k) * x + Shift(k)), with an odd shift. */
  function Affine(x: int, p: int, u: int, v: int): int { x + p * (4 * u * x + v) }

  function Slope(k: nat): int
  {
    if k == 0 then (MULTIPLIER - 1) / 4 else TwiceSlope(Slope(k - 1), Pow2(k - 1))
  }

  function Shift(k: nat): int
  {
    if k == 0 then INCREMENT else TwiceShift(Shift(k - 1), Slope(k - 1), Pow2(k - 1))
  }

  function TwiceSlope(u: int, p: int): int { u + 2 * u * u * p }

  function TwiceShift(v: int, u: int, p: int): int { v * (1 + 2 * (u * p)) }

  /** Applying the map twice gives a map of the same form. */
  lemma TwiceAffine(x: int, p: int, u: int, v: int)
    ensures Affine(Affine(x, p, u, v), p, u, v) == Affine(x, 2 * p, TwiceSlope(u, p), TwiceShift(v, u, p))
  {
    var w := 4 * u * x + v;
    StretchAffine(x, p, u, v);
    WidenAffine(x, p, u, v);
    hide *;
    FactorAffine(p, u * p, w);
  }

  lemma StretchAffine(x: int, p: int, u: int, v: int)
    ensures var w := 4 * u * x + v;
            Affine(Affine(x, p, u, v), p, u, v) == x + (p * w + p * (w + 4 * (u * p) * w))
    ensures Affine(x, 2 * p, TwiceSlope(u, p), TwiceShift(v, u, p))
         == x + 2 * p * (4 * TwiceSlope(u, p) * x + TwiceShift(v, u, p))
  {
    hide TwiceSlope, TwiceShift;
    var w := 4 * u * x + v;
    assert 4 * u * (x + p * w) + v == w + 4 * (u * p) * w;
  }

  lemma FactorAffine(p: int, q: int, w: int)
    ensures p * w + p * (w + 4 * q * w) == 2 * p * (w + 2 * q * w)
  {}

  lemma WidenAffine(x: int, p: int, u: int, v: int)
    ensures var w := 4 * u * x + v;
            w + 2 * (u * p) * w == 4 * TwiceSlope(u, p) * x + TwiceShift(v, u, p)
  {
    assert 2 * (u * p) * (4 * u * x) == 4 * (2 * u * u * p) * x;
  }

  lemma OddProduct(a: int, b: int)
    requires a % 2 == 1
    ensures (a * (1 + 2 * b)) % 2 == 1
  {
    assert a * (1 + 2 * b) == a + (a * b) * 2;
    ModShift(a, a * b, 2);
  }

  lemma {:induction false} ShiftOdd(k: nat)
    ensures Shift(k) % 2 == 1
  {
    if k > 0 {
      ShiftOdd(k - 1);
      OddProduct(Shift(k - 1), Slope(k - 1) * Pow2(k - 1));
    }
  }

  lemma {:induction false} PowerDraws(x: int, k: nat)
    ensures Unwrapped(x, Pow2(k)) == Affine(x, Pow2(k), Slope(k), Shift(k))
    decreases k
  {
    if k == 0 {
      assert Unwrapped(x, 1) == MULTIPLIER * Unwrapped(x, 0) + INCREMENT;
    } else {
      hide Unwrapped, Affine, TwiceSlope, TwiceShift;
      var p := Pow2(k - 1);
      var y := Unwrapped(x, p);
      UnwrappedSum(x, p, p);
      PowerDraws(x, k - 1);
      PowerDraws(y, k - 1);
      TwiceAffine(x, p, Slope(k - 1), Shift(k - 1));
    }
  }

  /** A multiple of 2^k. */
  function Scaled(k: nat, m: int): (r: int)
    ensures m >= 0 ==> r >= 0
  {
    Pow2(k) * m
  }

  lemma ScaledSum(k: nat, a: int, b: int)
    ensures Scaled(k, a + b) == Scaled(k, a) + Scaled(k, b)
    ensures Scaled(k, 1) == Pow2(k) && Scaled(k, 0) == 0
  {}

  lemma AffineScaled(x: int, k: nat, u: int, v: int)
    ensures Affine(x, Pow2(k), u, v) == x + Scaled(k, 4 * u * x + v)
  {}

  lemma AffineStep(x: int, k: nat, u: int, v: int) returns (o: int)
    requires v % 2 == 1
    ensures Affine(x, Pow2(k), u, v) == x + Scaled(k, o) && o % 2 == 1
  {
    o := 4 * u * x + v;
    AffineScaled(x, k, u, v);
    hide *;
    assert 4 * u * x == (2 * u * x) * 2;
    ModShift(v, 2 * u * x, 2);
  }

  /** 2^k draws add an odd multiple of 2^k. */
  lemma OddStep(x: int, k: nat) returns (o: int)
    ensures Unwrapped(x, Pow2(k)) == x + Scaled(k, o) && o % 2 == 1
  {
    hide *;
    PowerDraws(x, k);
    ShiftOdd(k);
    o := AffineStep(x, k, Slope(k), Shift(k));
  }

  /** 2^k * m draws add 2^k times a number of the parity of m. */
  lemma {:induction false} Multiples(x: int, k: nat, m: nat) returns (t: int)
    ensures Unwrapped(x, Scaled(k, m)) == x + Scaled(k, t)
    ensures t % 2 == m % 2
  {
    if m == 0 {
      t := 0;
      ScaledSum(k, 0, 0);
    } else {
      hide *;
      t := Multiples(x, k, m - 1);
      ScaledSum(k, m - 1, 1);
      UnwrappedSum(x, Scaled(k, m - 1), Pow2(k));
      var o := OddStep(Unwrapped(x, Scaled(k, m - 1)), k);
      ScaledSum(k, t, o);
      OddSum(t, o, m - 1);
      t := t + o;
    }
  }

  lemma OddSum(t: int, o: int, m: int)
    requires o % 2 == 1 && t % 2 == m % 2
    ensures (t + o) % 2 == (m + 1) % 2
  {}

  predicate Divides(m: int, x: int)
    requires m > 0
  { x % m == 0 }

  lemma DividesTwice(p: int, t: int)
    requires p > 0
    ensures Divides(p, p * t)
    ensures Divides(2 * p, p * t) <==> t % 2 == 0
  {
    assert p * t == 0 + t * p;
    ModShift(0, t, p);
    var h, r := t / 2, t % 2;
    assert p * t == r * p + h * (2 * p) by { assert t == 2 * h + r; }
    ModShift(r * p, h, 2 * p);
    if r == 1 {
      DivModUnique(p, 2 * p, 0, p);
    } else {
      DivModUnique(0, 2 * p, 0, 0);
    }
  }

  lemma HalfDivides(p: int, x: int)
    requires p > 0 && Divides(2 * p, x)
    ensures Divides(p, x)
  {
    var q := x / (2 * p);
    assert x == (2 * p) * q;
    assert x == p * (2 * q);
    DividesTwice(p, 2 * q);
  }

  lemma ScaledDivides(k: nat, t: int)
    ensures Divides(Pow2(k), Scaled(k, t))
    ensures Divides(Pow2(k + 1), Scaled(k, t)) <==> t % 2 == 0
  {
    DividesTwice(Pow2(k), t);
  }

  lemma ExactQuotient(x: int, p: int)
    requires p > 0 && x % p == 0
    ensures x == p * (x / p) && (x >= 0 ==> x / p >= 0)
  {
    if x / p < 0 {
      MulMonotone(x / p, -1, p);
    }
  }

  lemma ScaledQuotient(k: nat, x: int)
    requires Divides(Pow2(k), x)
    ensures x == Scaled(k, x / Pow2(k))
    ensures x >= 0 ==> x / Pow2(k) >= 0
  {
    ExactQuotient(x, Pow2(k));
  }

  /** n draws come back to the seed modulo 2^k exactly when 2^k divides n. */
  lemma {:induction false} Period(x: int, n: nat, k: nat)
    ensures Divides(Pow2(k), Unwrapped(x, n) - x) <==> Divides(Pow2(k), n)
  {
    if k > 0 {
      Period(x, n, k - 1);
      PeriodStep(x, n, k - 1);
    }
  }

  lemma PeriodStep(x: int, n: nat, k: nat)
    requires Divides(Pow2(k), Unwrapped(x, n) - x) <==> Divides(Pow2(k), n)
    ensures Divides(Pow2(k + 1), Unwrapped(x, n) - x) <==> Divides(Pow2(k + 1), n)
  {
    hide Unwrapped, Scaled, Divides;
    if Divides(2 * Pow2(k), Unwrapped(x, n) - x) { HalfDivides(Pow2(k), Unwrapped(x, n) - x); }
    if Divides(2 * Pow2(k), n) { HalfDivides(Pow2(k), n); }
    if Divides(Pow2(k), n) {
      ScaledQuotient(k, n);
      var m := n / Pow2(k);
      var t := Multiples(x, k, m);
      ScaledDivides(k, t);
      ScaledDivides(k, m);
    }
  }

  /** Fewer than 2^k draws reach every residue modulo 2^k. */
  lemma {:induction false} Reach(x: int, y: int, k: nat) returns (n: nat)
    ensures n < Pow2(k) && Divides(Pow2(k), Unwrapped(x, n) - y)
  {
    if k == 0 {
      n := 0;
    } else {
      n := Reach(x, y, k - 1);
      n := ReachStep(x, y, k - 1, n);
    }
  }

  /** If the residue is wrong modulo 2^(k + 1), 2^k more draws correct it. */
  lemma ReachStep(x: int, y: int, k: nat, n: nat) returns (n': nat)
    requires n < Pow2(k) && Divides(Pow2(k), Unwrapped(x, n) - y)
    ensures n' < Pow2(k + 1) && Divides(Pow2(k + 1), Unwrapped(x, n') - y)
  {
    hide Unwrapped, Scaled, Divides;
    var z := Unwrapped(x, n);
    ScaledQuotient(k, z - y);
    var s := (z - y) / Pow2(k);
    ScaledDivides(k, s);
    n' := n;
    if s % 2 == 1 {
      UnwrappedSum(x, n, Pow2(k));
      var o := OddStep(z, k);
      ScaledSum(k, s, o);
      ScaledDivides(k, s + o);
      n' := n + Pow2(k);
    }
  }

  lemma WrapCongruent(x: int, y: int)
    ensures Wrap(x) == Wrap(y) <==> Divides(TWO32, x - y)
  {
    if Wrap(x) == Wrap(y) {
      var j := WrapMultiple(x);
      var k := WrapMultiple(y);
      assert x - y == 0 + (k - j) * TWO32;
      ModShift(0, k - j, TWO32);
    } else if Divides(TWO32, x - y) {
      var q := (x - y) / TWO32;
      assert x == y + q * TWO32;
      WrapShift(y, q);
    }
  }

  /** The seed returns after n draws exactly when n is a multiple of 2^32. */
  lemma SeedPeriod(x: int32, n: nat)
    ensures Draws(x, n) == x <==> n % TWO32 == 0
  {
    UnwrappedDraws(x, n);
    WrapCongruent(Unwrapped(x, n), x);
    Pow2Is32();
    Period(x, n, 32);
  }

  lemma {:induction false} DrawsSum(x: int32, m: nat, n: nat)
    ensures Draws(x, m + n) == Draws(Draws(x, m), n)
  {
    hide Next;
    if n > 0 {
      DrawsSum(x, m, n - 1);
    }
  }

  /** Starting anywhere, each of the 2^32 seeds is drawn exactly once in any
      2^32 consecutive draws. */
  lemma FullCycle(x: int32, y: int32)
    ensures exists n: nat :: n < TWO32 && Draws(x, n) == y
    ensures forall m: nat, n: nat :: m < TWO32 && n < TWO32 && Draws(x, m) == y && Draws(x, n) == y ==> m == n
  {
    hide Wrap, Next, Draws, Unwrapped;
    Pow2Is32();
    var n := Reach(x, y, 32);
    UnwrappedDraws(x, n);
    WrapCongruent(Unwrapped(x, n), y);
    forall m: nat, n: nat | m < n < TWO32 && Draws(x, m) == y && Draws(x, n) == y ensures false {
      DrawsSum(x, m, n - m);
      SeedPeriod(y, n - m);
    }
  }
}
