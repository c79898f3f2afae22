/** Row-major layout of arrays. An array is declared by the largest subscript of
    each dimension, so a dimension d has d + 1 elements. */
module RowMajor {
  import opened Int32

  /** The number of elements spanned by the dimensions from i on. */
  function SizeFrom(d: seq<int>, i: nat): int
    requires i <= |d|
    decreases |d| - i
  {
    if i == |d| then 1 else (d[i] + 1) * SizeFrom(d, i + 1)
  }

  /** The sum, over the dimensions from i on, of every subscript times the
      number of elements spanned by the dimensions after it. */
  function OffsetFrom(d: seq<int>, x: seq<int>, i: nat): int
    requires i <= |d| == |x|
    decreases |d| - i
  {
    if i == |d| then 0 else x[i] * SizeFrom(d, i + 1) + OffsetFrom(d, x, i + 1)
  }

  function Size(d: seq<int>): int { SizeFrom(d, 0) }

  function Offset(d: seq<int>, x: seq<int>): int
    requires |d| == |x|
  {
    OffsetFrom(d, x, 0)
  }

  predicate InBounds(d: seq<int>, x: seq<int>)
  {
    |d| == |x| && forall k :: 0 <= k < |d| ==> 0 <= x[k] <= d[k]
  }

  predicate NonNegative(d: seq<int>) { forall k :: 0 <= k < |d| ==> d[k] >= 0 }

  /** The layout in row-major order: a dimension added at the end makes every element
      into a row, and the last subscript counts within the row. */
  lemma RowMajorOrder(d: seq<int>, x: seq<int>, n: int, y: int)
    requires |d| == |x|
    ensures Size([]) == 1 && Offset([], []) == 0
    ensures Size(d + [n]) == Size(d) * (n + 1)
    ensures Offset(d + [n], x + [y]) == Offset(d, x) * (n + 1) + y
  {
    RowMajorFrom(d, x, n, y, 0);
  }

  lemma {:induction false} RowMajorFrom(d: seq<int>, x: seq<int>, n: int, y: int, i: nat)
    requires i <= |d| == |x|
    ensures SizeFrom(d + [n], i) == SizeFrom(d, i) * (n + 1)
    ensures OffsetFrom(d + [n], x + [y], i) == OffsetFrom(d, x, i) * (n + 1) + y
    decreases |d| - i
  {
    if i == |d| {
      assert SizeFrom(d + [n], i + 1) == 1;
    } else {
      RowMajorFrom(d, x, n, y, i + 1);
      Rows(SizeFrom(d, i + 1), OffsetFrom(d, x, i + 1), d[i] + 1, x[i], n + 1, y);
    }
  }

  lemma Rows(z: int, o: int, f: int, x: int, n: int, y: int)
    ensures f * (z * n) == (f * z) * n
    ensures x * (z * n) + (o * n + y) == (x * z + o) * n + y
  {
    assert x * (z * n) == (x * z) * n;
  }

  lemma {:induction false} SizePositive(d: seq<int>, i: nat)
    requires NonNegative(d) && i <= |d|
    ensures SizeFrom(d, i) >= 1
    decreases |d| - i
  {
    if i < |d| {
      SizePositive(d, i + 1);
      MulMonotone(1, d[i] + 1, SizeFrom(d, i + 1));
    }
  }

  /** Offsets of valid subscripts lie inside the array. */
  lemma {:induction false} OffsetInRange(d: seq<int>, x: seq<int>, i: nat)
    requires InBounds(d, x) && i <= |d|
    ensures 0 <= OffsetFrom(d, x, i) < SizeFrom(d, i)
    decreases |d| - i
  {
    if i < |d| {
      OffsetInRange(d, x, i + 1);
      SizePositive(d, i + 1);
      var m := SizeFrom(d, i + 1);
      MulMonotone(x[i], d[i], m);
      assert (d[i] + 1) * m == d[i] * m + m;
    }
  }

  /** Two quotients and remainders with the same value are equal. */
  lemma DigitsUnique(a: int, r: int, b: int, q: int, m: int)
    requires 0 <= r < m && 0 <= q < m
    requires a * m + r == b * m + q
    ensures a == b && r == q
  {
    assert (a - b) * m == q - r;
    if a > b {
      MulMonotone(1, a - b, m);
    } else if a < b {
      assert (b - a) * m == r - q;
      MulMonotone(1, b - a, m);
    }
  }

  /** Distinct subscripts have distinct offsets. */
  lemma {:induction false} OffsetInjective(d: seq<int>, x: seq<int>, y: seq<int>, i: nat)
    requires InBounds(d, x) && InBounds(d, y) && i <= |d|
    requires OffsetFrom(d, x, i) == OffsetFrom(d, y, i)
    ensures forall k :: i <= k < |d| ==> x[k] == y[k]
    decreases |d| - i
  {
    if i < |d| {
      OffsetInRange(d, x, i + 1);
      OffsetInRange(d, y, i + 1);
      DigitsUnique(x[i], OffsetFrom(d, x, i + 1), y[i], OffsetFrom(d, y, i + 1), SizeFrom(d, i + 1));
      OffsetInjective(d, x, y, i + 1);
    }
  }

  /** The subscripts, from dimension i on, of an offset. */
  function Subscripts(d: seq<int>, i: nat, offset: int): (x: seq<int>)
    requires NonNegative(d) && i <= |d|
    ensures |x| == |d| - i
    decreases |d| - i
  {
    if i == |d| then []
    else
      SizePositive(d, i + 1);
      [offset / SizeFrom(d, i + 1)] + Subscripts(d, i + 1, offset % SizeFrom(d, i + 1))
  }

  lemma QuotientBound(n: int, a: int, m: int)
    requires m > 0 && 0 <= n < (a + 1) * m
    ensures 0 <= n / m <= a
    ensures n == (n / m) * m + n % m
  {
    var q := n / m;
    assert n == m * q + n % m;
    if q > a {
      if a >= -1 { MulMonotone(a + 1, q, m); } else { MulMonotone(1, -(a + 1), m); }
    } else if q < 0 {
      MulMonotone(1, -q, m);
    }
  }

  /** Every offset belongs to valid subscripts, whatever precedes them. */
  lemma {:induction false} OffsetSurjective(d: seq<int>, front: seq<int>, offset: int)
    requires NonNegative(d) && |front| <= |d| && 0 <= offset < SizeFrom(d, |front|)
    ensures var x := front + Subscripts(d, |front|, offset);
            && OffsetFrom(d, x, |front|) == offset
            && (forall k :: |front| <= k < |d| ==> 0 <= x[k] <= d[k])
    decreases |d| - |front|
  {
    var i := |front|;
    if i < |d| {
      SizePositive(d, i + 1);
      var m := SizeFrom(d, i + 1);
      QuotientBound(offset, d[i], m);
      OffsetSurjective(d, front + [offset / m], offset % m);
      assert front + Subscripts(d, i, offset)
          == (front + [offset / m]) + Subscripts(d, i + 1, offset % m);
    }
  }

  /** Valid subscripts and the offsets 0 to Size - 1 are in bijection. */
  lemma Bijection(d: seq<int>, offset: int)
    requires NonNegative(d)
    ensures 0 <= offset < Size(d) <==> exists x :: InBounds(d, x) && Offset(d, x) == offset
    ensures forall x, y :: InBounds(d, x) && InBounds(d, y) && Offset(d, x) == Offset(d, y) ==> x == y
  {
    if 0 <= offset < Size(d) {
      OffsetSurjective(d, [], offset);
      var x := [] + Subscripts(d, 0, offset);
      assert InBounds(d, x) && Offset(d, x) == offset;
    }
    forall x | InBounds(d, x) ensures 0 <= Offset(d, x) < Size(d) {
      OffsetInRange(d, x, 0);
    }
    forall x, y | InBounds(d, x) && InBounds(d, y) && Offset(d, x) == Offset(d, y) ensures x == y {
      OffsetInjective(d, x, y, 0);
    }
  }

  /** The product of the sizes of the picked dimensions from i on. */
  function PickedFrom(d: seq<int>, pick: seq<bool>, which: bool, i: nat): int
    requires i <= |d| == |pick|
    decreases |d| - i
  {
    if i == |d| then 1
    else (if pick[i] == which then d[i] + 1 else 1) * PickedFrom(d, pick, which, i + 1)
  }

  lemma Regroup(a: int, b: int, c: int)
    ensures a * b * c == a * (b * c) && b * (a * c) == a * (b * c)
  {}

  /** However the dimensions are divided in two, the sizes multiply to the whole. */
  lemma {:induction false} SizeSplit(d: seq<int>, pick: seq<bool>, i: nat)
    requires i <= |d| == |pick|
    ensures SizeFrom(d, i) == PickedFrom(d, pick, true, i) * PickedFrom(d, pick, false, i)
    decreases |d| - i
  {
    if i < |d| {
      SizeSplit(d, pick, i + 1);
      var t, f := PickedFrom(d, pick, true, i + 1), PickedFrom(d, pick, false, i + 1);
      Regroup(d[i] + 1, t, f);
    }
  }
}
