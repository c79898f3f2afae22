/** The code emitted for array subscripts and array sizes. Subscripts and
    dimensions may each be constants or known only at run time; as much as
    possible of the row-major offset and of the bounds checks is done at compile
    time, and the emitted code does the rest. */
module ArrayIndex {
  import opened Int32
  import opened IR
  import opened Wrappers
  import opened Int32Lowering
  import opened RowMajor
  import ArrayRefs

  // Offsets within an array descriptor.
  const DATA_OFF: int32 := 4
  const DIMS_OFF: int32 := 16
  const DYNAMIC_DIMENSION: int32 := -1

  /** The largest number of elements accepted for constant dimensions. */
  const MAX_CONSTANT_SIZE: int := 0x7ff_ffff

  datatype Element = Integers | Strings {
    function Bytes(): int32 { if Integers? then 4 else ArrayRefs.STRING_SIZE }
  }

  /** A declared array type: largest subscripts, or -1 for one only known at run time. */
  datatype ArrayType = ArrayType(dims: seq<int32>, el: Element)

  /** The largest subscript of dimension k of the array whose descriptor is at base + loc. */
  function Extent(t: ArrayType, k: nat, base: int32, loc: int32, mem: Memory): int32
    requires k < |t.dims|
  {
    if t.dims[k] != DYNAMIC_DIMENSION then t.dims[k] else Load(mem, Wrap(base + (loc + DIMS_OFF + 4 * k)))
  }

  function Extents(t: ArrayType, base: int32, loc: int32, mem: Memory): (d: seq<int>)
    ensures |d| == |t.dims|
    ensures forall k :: 0 <= k < |d| ==> d[k] == Extent(t, k, base, loc, mem)
  {
    seq(|t.dims|, k requires 0 <= k < |t.dims| => Extent(t, k, base, loc, mem) as int)
  }

  function Values(e: seq<Exp>, regs: Regs): (x: seq<int>)
    ensures |x| == |e|
    ensures forall k :: 0 <= k < |x| ==> x[k] == Value(e[k], regs)
  {
    seq(|e|, k requires 0 <= k < |e| => Value(e[k], regs) as int)
  }

  /** Subscript k and its dimension are both constants, so it is checked at compile time. */
  predicate Static(t: ArrayType, e: seq<Exp>, k: nat)
    requires k < |t.dims| && k < |e|
  {
    e[k].Const? && t.dims[k] != DYNAMIC_DIMENSION
  }

  /** Subscript k is left to the code emitted for the ones after it although it is
      static: its comparisons are folded, and the jump tests a constant. */
  predicate Folded(t: ArrayType, e: seq<Exp>, k: nat)
    requires k < |e| == |t.dims|
  {
    Static(t, e, k) && exists m: nat :: k < m < |e| && !Static(t, e, m)
  }

  /** No static subscript comes before one that is not. */
  predicate InOrder(t: ArrayType, e: seq<Exp>)
    requires |e| == |t.dims|
  {
    forall k: nat :: k < |e| ==> !Folded(t, e, k)
  }

  /** A subscript checked at compile time is out of bounds. */
  predicate StaticError(t: ArrayType, e: seq<Exp>)
  {
    |e| == |t.dims|
    && exists k: nat :: k < |e| && Static(t, e, k) && !Folded(t, e, k) && !(0 <= e[k].integer <= t.dims[k])
  }

  /** Whether the jump of a bounds check goes on. A folded comparison leaves -1 or 0,
      which the jump takes for the number of no register or of register 0. */
  function Passes(ok: bool, folded: bool, low: int32, beyond: int32): bool
  {
    if folded then (if ok then beyond else low) != 0 else ok
  }

  /** The checks an access with subscripts x has to pass. */
  function Checks(t: ArrayType, e: seq<Exp>, d: seq<int>, x: seq<int>, low: int32, beyond: int32): (c: seq<bool>)
    requires |t.dims| == |e| == |d| == |x|
    ensures |c| == |e|
    ensures forall k :: 0 <= k < |c| ==> c[k] == Passes(0 <= x[k] <= d[k], Folded(t, e, k), low, beyond)
  {
    seq(|e|, k requires 0 <= k < |e| => Passes(0 <= x[k] <= d[k], Folded(t, e, k), low, beyond))
  }

  predicate AllPass(c: seq<bool>) { forall k :: 0 <= k < |c| ==> c[k] }

  lemma InOrderChecks(t: ArrayType, e: seq<Exp>, d: seq<int>, x: seq<int>, low: int32, beyond: int32)
    requires |t.dims| == |e| == |d| == |x| && InOrder(t, e)
    ensures AllPass(Checks(t, e, d, x, low, beyond)) <==> InBounds(d, x)
  {
    hide Folded;
    var c := Checks(t, e, d, x, low, beyond);
    assert forall k :: 0 <= k < |e| ==> (c[k] <==> 0 <= x[k] <= d[k]);
  }

  /** Subscripts are let through whatever the registers hold exactly when they are
      in bounds and in order. */
  lemma AlwaysAccepted(t: ArrayType, e: seq<Exp>, d: seq<int>, x: seq<int>)
    requires |t.dims| == |e| == |d| == |x|
    ensures (forall low: int32, beyond: int32 :: AllPass(Checks(t, e, d, x, low, beyond)))
            <==> InBounds(d, x) && InOrder(t, e)
  {
    hide Folded;
    if InBounds(d, x) && InOrder(t, e) {
      forall low: int32, beyond: int32
        ensures AllPass(Checks(t, e, d, x, low, beyond))
      {
        InOrderChecks(t, e, d, x, low, beyond);
      }
    } else {
      var c := Checks(t, e, d, x, 0, 0);
      var k: nat :| k < |e| && (Folded(t, e, k) || !(0 <= x[k] <= d[k]));
      assert !c[k];
    }
  }

  /** They are turned away whatever the registers hold exactly when one is out of
      bounds that is not folded. */
  lemma AlwaysRejected(t: ArrayType, e: seq<Exp>, d: seq<int>, x: seq<int>)
    requires |t.dims| == |e| == |d| == |x|
    ensures (forall low: int32, beyond: int32 :: !AllPass(Checks(t, e, d, x, low, beyond)))
            <==> exists k: nat :: k < |e| && !Folded(t, e, k) && !(0 <= x[k] <= d[k])
  {
    hide Folded;
    if k: nat :| k < |e| && !Folded(t, e, k) && !(0 <= x[k] <= d[k]) {
      forall low: int32, beyond: int32
        ensures !AllPass(Checks(t, e, d, x, low, beyond))
      {
        assert !Checks(t, e, d, x, low, beyond)[k];
      }
    } else {
      assert AllPass(Checks(t, e, d, x, 1, 1));
    }
  }

  /** A compile time error is raised only for subscripts that are out of bounds
      whatever the registers and the memory hold. */
  lemma StaticErrorIsError(t: ArrayType, e: seq<Exp>, base: int32, loc: int32, mem: Memory, regs: Regs)
    requires StaticError(t, e)
    ensures !InBounds(Extents(t, base, loc, mem), Values(e, regs))
  {
    var k: nat :| k < |e| && Static(t, e, k) && !Folded(t, e, k) && !(0 <= e[k].integer <= t.dims[k]);
    assert Extents(t, base, loc, mem)[k] == t.dims[k] && Values(e, regs)[k] == e[k].integer;
  }

  // ----- Emitters -----

  ghost predicate ScopedAll(s: Section, e: seq<Exp>)
    reads s
  {
    forall k :: 0 <= k < |e| ==> s.Scoped(e[k])
  }

  /** Either nothing but new registers changes, or control goes to the error code. */
  ghost predicate Checked(before: Outcome, after: Outcome, n: nat, ok: bool, error: Option<nat>)
  {
    if before.Running? && ok then after.Running? && Preserves(before.regs, after.regs, n)
    else if before.Running? then after.Jumping? && error == Some(after.target)
    else after == before
  }

  twostate predicate Grows(s: Section)
    reads s
  {
    && s.Valid() && old(s.ops) <= s.ops
    && s.regCounter >= old(s.regCounter) && s.labelCounter >= old(s.labelCounter)
    && (old(s.arrayAccess).Some? ==> s.arrayAccess == old(s.arrayAccess))
  }

  /** The appended code has no jumps and keeps the registers there were. */
  twostate predicate Continues(s: Section)
    reads s
  {
    && Grows(s) && s.arrayAccess == old(s.arrayAccess)
    && RegisterJumps(s.ops) == RegisterJumps(old(s.ops))
    && Checked(old(s.now), s.now, old(s.regCounter), true, s.arrayAccess)
  }

  /** The appended code continues if ok holds and otherwise goes to the error code. */
  twostate predicate Guards(s: Section, ok: bool)
    reads s
  {
    && Grows(s)
    && Checked(old(s.now), s.now, old(s.regCounter), ok, s.arrayAccess)
  }

  lemma TruthAnd(p: bool, q: bool)
    ensures And32(Truth(p), Truth(q)) == Truth(p && q)
  {}

  lemma TruthIsTest(p: bool)
    ensures Truth(p) == if p then -1 else 0
  {}

  predicate InRange(e: Exp, lower: int32, maxDim: Option<Exp>, regs: Regs)
  {
    var x := Value(e, regs);
    lower <= x && (maxDim.Some? ==> x <= Value(maxDim.value, regs))
  }

  predicate BothConstant(e: Exp, maxDim: Option<Exp>) { e.Const? && (maxDim.Some? ==> maxDim.value.Const?) }

  method Compare(s: Section, op: Opcode, e1: Exp, e2: Exp) returns (cond: Exp)
    requires op in {Gte, Lte} && s.Valid() && s.Scoped(e1) && s.Scoped(e2)
    modifies s
    ensures var regs := RegsOf(old(s.now));
            var holds := if op == Gte then Value(e1, regs) >= Value(e2, regs) else Value(e1, regs) <= Value(e2, regs);
            && Emits(s, cond, Some(Truth(holds)))
            && (cond.Const? <==> e1.Const? && e2.Const?)
            && (cond.Const? ==> cond.integer == Truth(holds))
  {
    hide IsTrace, RegisterJumps, Section.Valid, Yields, Truth;
    cond := Arithmetic(s, op, e1, e2);
  }

  method Both(s: Section, c1: Exp, c2: Exp, ghost p: bool, ghost q: bool) returns (cond: Exp)
    requires s.Valid() && s.Scoped(c1) && s.Scoped(c2)
    requires c1.Const? || s.now.Running? ==> Value(c1, RegsOf(s.now)) == Truth(p)
    requires c2.Const? || s.now.Running? ==> Value(c2, RegsOf(s.now)) == Truth(q)
    modifies s
    ensures Emits(s, cond, Some(Truth(p && q)))
    ensures cond.Const? <==> c1.Const? && c2.Const?
    ensures cond.Const? ==> cond.integer == Truth(p && q)
  {
    hide IsTrace, RegisterJumps, Section.Valid, And32, Truth;
    TruthAnd(p, q);
    cond := Arithmetic(s, And, c1, c2);
  }

  /** The condition of a bounds check. Without a largest subscript only the
      lower bound is compared. */
  method RangeCondition(s: Section, e: Exp, lower: int32, maxDim: Option<Exp>) returns (cond: Exp)
    requires s.Valid() && s.Scoped(e) && (maxDim.Some? ==> s.Scoped(maxDim.value))
    modifies s
    ensures Emits(s, cond, Some(Truth(InRange(e, lower, maxDim, RegsOf(old(s.now))))))
    ensures cond.Const? <==> BothConstant(e, maxDim)
    ensures cond.Const? ==> cond.integer == Truth(InRange(e, lower, maxDim, RegsOf(old(s.now))))
  {
    hide IsTrace, RegisterJumps, Section.Valid, Step, And32, Truth;
    cond := Compare(s, Gte, e, Const(lower));
    ghost var x := Value(e, RegsOf(old(s.now)));
    if maxDim.Some? {
      var below := Compare(s, Lte, e, maxDim.value);
      ghost var max := Value(maxDim.value, RegsOf(old(s.now)));
      cond := Both(s, cond, below, lower <= x, x <= max);
    }
  }

  /** Checks a subscript or a dimension against its bounds. The jump is given the
      condition as it is, also when it has been folded to a constant. */
  method CheckDynamicDim(s: Section, e: Exp, lower: int32, maxDim: Option<Exp>)
    requires s.Valid() && s.Scoped(e) && (maxDim.Some? ==> s.Scoped(maxDim.value))
    modifies s
    ensures var regs := RegsOf(old(s.now));
            Guards(s, Passes(InRange(e, lower, maxDim, regs), BothConstant(e, maxDim), Get(regs, 0), s.mem.beyond))
    ensures RegisterJumps(s.ops) <==> RegisterJumps(old(s.ops)) && !BothConstant(e, maxDim)
  {
    hide IsTrace, RegisterJumps, Section.Valid, InRange, Truth;
    var error := s.ErrorLabel();
    var okLabel := s.NewLabel();
    var cond := RangeCondition(s, e, lower, maxDim);
    JumpOrGoOn(s, cond, okLabel, error);
    TruthIsTest(InRange(e, lower, maxDim, RegsOf(old(s.now))));
  }

  /** Goes on after the label ok if the operand tests true, and to the error code otherwise. */
  method JumpOrGoOn(s: Section, cond: Exp, ok: nat, error: nat)
    requires s.Valid() && ok < s.labelCounter && s.arrayAccess == Some(error) && ok != error
    requires s.now.Jumping? ==> s.now.target != ok
    modifies s
    ensures Grows(s) && s.regCounter == old(s.regCounter)
    ensures RegisterJumps(s.ops) <==> RegisterJumps(old(s.ops)) && cond.Reg?
    ensures s.now == if !old(s.now).Running? then old(s.now)
                     else if Tested(cond, old(s.now).regs, s.mem) != 0 then old(s.now)
                     else Jumping(error, old(s.now).regs)
  {
    hide IsTrace, RegisterJumps, Tested;
    s.Append(Jmpc(cond, ok, error));
    s.Append(Label(ok));
  }

  method LoadWord(s: Section, memReg: nat, offset: int32) returns (r: nat)
    requires s.Valid() && memReg < s.regCounter
    modifies s
    ensures Emits(s, Reg(r), Some(Load(s.mem, Wrap(Get(RegsOf(old(s.now)), memReg) + offset))))
  {
    hide IsTrace, RegisterJumps, Section.Valid, Yields, Wrap;
    r := Emit(s, LoadO(s.regCounter, memReg, offset));
  }

  method GetDimSize(s: Section, dim: int32, offset: int32, memReg: nat) returns (maxe: Exp)
    requires s.Valid() && memReg < s.regCounter
    modifies s
    ensures Emits(s, maxe, Some(if dim == DYNAMIC_DIMENSION
                                then Load(s.mem, Wrap(Get(RegsOf(old(s.now)), memReg) + offset)) else dim))
    ensures maxe.Const? <==> dim != DYNAMIC_DIMENSION
  {
    hide IsTrace, RegisterJumps, Section.Valid, Step, Wrap;
    if dim == DYNAMIC_DIMENSION {
      var reg := LoadWord(s, memReg, offset);
      maxe := Reg(reg);
    } else {
      maxe := Const(dim);
    }
  }

  /** Loads the largest subscript of dimension k and checks a subscript against it. */
  method CheckDynamicIndex(s: Section, t: ArrayType, e: Exp, k: nat, memReg: nat, loc: int32) returns (maxe: Exp)
    requires s.Valid() && s.Scoped(e) && memReg < s.regCounter
    requires k < |t.dims| && 0 <= loc && loc + DIMS_OFF + 4 * k <= INT_MAX
    modifies s
    ensures var regs := RegsOf(old(s.now));
            var extent := Extent(t, k, Get(regs, memReg), loc, s.mem);
            && s.Scoped(maxe)
            && Guards(s, Passes(0 <= Value(e, regs) <= extent, e.Const? && t.dims[k] != DYNAMIC_DIMENSION,
                                Get(regs, 0), s.mem.beyond))
            && (s.now.Running? ==> Value(maxe, s.now.regs) == extent)
    ensures RegisterJumps(s.ops) <==> RegisterJumps(old(s.ops)) && !(e.Const? && t.dims[k] != DYNAMIC_DIMENSION)
  {
    hide IsTrace, RegisterJumps, Section.Valid, Step, Wrap;
    maxe := GetDimSize(s, t.dims[k], loc + DIMS_OFF + 4 * k, memReg);
    CheckDynamicDim(s, e, 0, Some(maxe));
  }

  method CheckLastIndex(s: Section, t: ArrayType, e: seq<Exp>, memReg: nat, loc: int32) returns (r: Result<()>)
    requires s.Valid() && ScopedAll(s, e) && memReg < s.regCounter
    requires 0 < |e| == |t.dims| && 0 <= loc && loc + DIMS_OFF + 4 * |e| <= INT_MAX
    modifies s
    ensures r.Failure? ==> StaticError(t, e)
    ensures r.Failure? <==> Static(t, e, |e| - 1) && !(0 <= e[|e| - 1].integer <= t.dims[|e| - 1])
    ensures var last := |e| - 1;
            var regs := RegsOf(old(s.now));
            r.Success? ==> Guards(s, 0 <= Value(e[last], regs) <= Extent(t, last, Get(regs, memReg), loc, s.mem))
    ensures RegisterJumps(s.ops) == RegisterJumps(old(s.ops))
  {
    hide IsTrace, RegisterJumps, Section.Valid, Step;
    var last := |e| - 1;
    if Static(t, e, last) {
      if !(0 <= e[last].integer <= t.dims[last]) {
        return Failure;
      }
    } else {
      var _ := CheckDynamicIndex(s, t, e[last], last, memReg, loc);
    }
    r := Success(());
  }

  /** Checks performed one after the other. */
  lemma CheckedTwice(o: Outcome, mid: Outcome, o': Outcome, n: nat, n': nat, p: bool, q: bool, r: bool,
                     error: Option<nat>, error': Option<nat>)
    requires Checked(o, mid, n, p, error) && Checked(mid, o', n', q, error')
    requires n <= n' && (error.Some? ==> error' == error) && (mid.Running? ==> (q <==> r))
    ensures Checked(o, o', n, p && r, error')
    ensures o'.Running? ==> mid.Running?
  {}

  lemma YieldsChecked(o: Outcome, o': Outcome, n: nat, e: Exp, v: int32, error: Option<nat>)
    requires Yields(o, o', n, e, Some(v))
    ensures Checked(o, o', n, true, error)
    ensures o.Running? ==> o'.Running? && Value(e, o'.regs) == v
  {}

  // ----- The compile time part of a subscript -----

  ghost function Constants(e: seq<Exp>): (x: seq<int>)
    ensures |x| == |e|
    ensures forall k :: 0 <= k < |x| ==> x[k] == if e[k].Const? then e[k].integer else 0
  {
    seq(|e|, k requires 0 <= k < |e| => (if e[k].Const? then e[k].integer else 0) as int)
  }

  /** Peels one dimension off a product of sizes. */
  lemma SizeStep(d: seq<int>, j: nat)
    requires j < |d|
    ensures SizeFrom(d, j) == (d[j] + 1) * SizeFrom(d, j + 1)
  {}

  lemma OffsetStep(d: seq<int>, x: seq<int>, j: nat)
    requires j < |d| == |x|
    ensures OffsetFrom(d, x, j) == x[j] * SizeFrom(d, j + 1) + OffsetFrom(d, x, j + 1)
  {}

  /** The product of the sizes of the dimensions from first on, as an int32. */
  method BlockSize(dims: seq<int32>, first: nat) returns (bsize: int32)
    requires first <= |dims|
    ensures bsize == Wrap(SizeFrom(dims, first))
  {
    hide Wrap, SizeFrom;
    ghost var d: seq<int> := dims;
    bsize := 1;
    var j := first;
    while j < |dims|
      invariant first <= j <= |dims|
      invariant Wrap(SizeFrom(d, j) * bsize) == Wrap(SizeFrom(d, first))
    {
      SizeStep(d, j);
      BlockSizeStep(SizeFrom(d, j + 1), d[j] + 1, bsize);
      bsize := Wrap(bsize as int * (dims[j] as int + 1));
      j := j + 1;
    }
    SizeEmpty(d);
    WrapInt32(bsize);
  }

  lemma SizeEmpty(d: seq<int>)
    ensures SizeFrom(d, |d|) == 1 && Wrap(1) == 1
  {}

  lemma BlockSizeStep(z: int, f: int, b: int32)
    ensures Wrap(z * Wrap(b * f)) == Wrap((f * z) * b)
  {
    hide Wrap;
    WrapMul(b * f, z);
    assert z * (b * f) == (f * z) * b;
  }

  /** A subscript times the sizes of the dimensions after it. The products are
      64-bit in the source. */
  method ConstantTerm(dims: seq<int32>, x: int32, i: nat) returns (prod: int)
    requires i < |dims|
    ensures prod == x * SizeFrom(dims, i + 1)
  {
    hide SizeFrom;
    ghost var d: seq<int> := dims;
    prod := x;
    var j := i + 1;
    while j < |dims|
      invariant i + 1 <= j <= |dims|
      invariant prod * SizeFrom(d, j) == x * SizeFrom(d, i + 1)
    {
      SizeStep(d, j);
      Regroup(prod, dims[j] as int + 1, SizeFrom(d, j + 1));
      prod := prod * (dims[j] as int + 1);
      j := j + 1;
    }
    SizeEmpty(d);
  }

  method ConstantOffset(dims: seq<int32>, e: seq<Exp>, first: nat) returns (arraySize: int)
    requires first <= |dims| == |e| && forall k :: first <= k < |e| ==> e[k].Const?
    ensures var x := Constants(e);
            arraySize == if first == |e| then 0 else OffsetFrom(dims, x, first) - x[|e| - 1]
  {
    hide SizeFrom, OffsetFrom;
    ghost var d: seq<int>, x := dims, Constants(e);
    arraySize := 0;
    var i := first;
    while i < |e| - 1
      invariant first <= i <= |e| && (first < |e| ==> i < |e|)
      invariant arraySize == OffsetFrom(d, x, first) - OffsetFrom(d, x, i)
    {
      var prod := ConstantTerm(dims, e[i].integer, i);
      OffsetStep(d, x, i);
      arraySize := arraySize + prod;
      i := i + 1;
    }
    if first < |e| {
      LastTerm(d, x);
    }
  }

  lemma LastTerm(d: seq<int>, x: seq<int>)
    requires 0 < |d| == |x|
    ensures OffsetFrom(d, x, |d| - 1) == x[|d| - 1]
  {
    OffsetStep(d, x, |d| - 1);
  }

  /** Finds the trailing dimensions whose subscripts are known, checks them and
      computes their part of the offset, all but the last subscript. Returns that
      part, the last dimension not handled, and the size of those handled. */
  method CheckConstantDims(t: ArrayType, e: seq<Exp>) returns (r: Result<(int, int, int32)>)
    requires 0 < |e| == |t.dims|
    ensures r.Failure? ==> StaticError(t, e)
    ensures r.Success? ==>
              var (arraySize, dynStart, blockSize) := r.value;
              var first := dynStart + 1;
              var x := Constants(e);
              && 0 <= first <= |e|
              && (forall k: nat :: first <= k < |e| ==> Static(t, e, k) && 0 <= e[k].integer <= t.dims[k])
              && (first > 0 ==> !Static(t, e, dynStart))
              && blockSize == Wrap(SizeFrom(t.dims, first))
              && arraySize == if first == |e| then 0 else OffsetFrom(t.dims, x, first) - x[|e| - 1]
  {
    hide Wrap, SizeFrom, OffsetFrom;
    var dynStart := |e| - 1;
    while dynStart >= 0 && Static(t, e, dynStart)
      invariant -1 <= dynStart < |e|
      invariant forall k: nat :: dynStart < k < |e| ==> Static(t, e, k) && 0 <= e[k].integer <= t.dims[k]
    {
      if !(0 <= e[dynStart].integer <= t.dims[dynStart]) {
        return Failure;
      }
      dynStart := dynStart - 1;
    }
    assert forall k: nat :: dynStart < k < |e| ==> Static(t, e, k);
    var blockSize := BlockSize(t.dims, dynStart + 1);
    var arraySize := ConstantOffset(t.dims, e, dynStart + 1);
    r := Success((arraySize, dynStart, blockSize));
  }

  // ----- The run time part -----

  /** The dimensions of the array and the subscripts as seen from a machine state. */
  ghost function Dims(t: ArrayType, memReg: nat, loc: int32, mem: Memory, o: Outcome): (d: seq<int>)
    ensures |d| == |t.dims|
  {
    Extents(t, Get(RegsOf(o), memReg), loc, mem)
  }

  ghost function Subs(e: seq<Exp>, o: Outcome): (x: seq<int>)
    ensures |x| == |e|
  {
    Values(e, RegsOf(o))
  }

  ghost function ChecksAt(t: ArrayType, e: seq<Exp>, memReg: nat, loc: int32, mem: Memory, o: Outcome): (c: seq<bool>)
    requires |t.dims| == |e|
    ensures |c| == |e|
  {
    Checks(t, e, Dims(t, memReg, loc, mem, o), Subs(e, o), Get(RegsOf(o), 0), mem.beyond)
  }

  /** None of them depends on registers written by code emitted later. */
  lemma StableView(t: ArrayType, e: seq<Exp>, memReg: nat, loc: int32, mem: Memory, n: nat, o: Outcome, o': Outcome)
    requires memReg < n && forall k :: 0 <= k < |e| ==> (e[k].Reg? ==> e[k].reg < n)
    requires o.Running? && o'.Running? && Preserves(o.regs, o'.regs, n)
    ensures Dims(t, memReg, loc, mem, o') == Dims(t, memReg, loc, mem, o)
    ensures Subs(e, o') == Subs(e, o)
    ensures |t.dims| == |e| ==> ChecksAt(t, e, memReg, loc, mem, o') == ChecksAt(t, e, memReg, loc, mem, o)
  {}

  lemma WrapBlock(z: int, f: int, block: int32)
    requires block == Wrap(z)
    ensures Wrap(block * Wrap(f)) == Wrap(f * z)
  {
    hide Wrap;
    WrapMul(z, Wrap(f));
    WrapMul(f, z);
    assert z * f == f * z;
  }

  lemma WrapTerm(o: int, z: int, x: int, block: int32, size: int32)
    requires block == Wrap(z) && size == Wrap(o)
    ensures Wrap(size + Wrap(block * x)) == Wrap(x * z + o)
  {
    hide Wrap;
    WrapMul(z, x);
    WrapAdd(o, Wrap(z * x));
    WrapAdd(z * x, o);
    assert z * x == x * z;
  }

  lemma StableAfterCheck(t: ArrayType, e: seq<Exp>, memReg: nat, loc: int32, mem: Memory, n: nat,
                         o: Outcome, o': Outcome, ok: bool, error: Option<nat>)
    requires memReg < n && forall k :: 0 <= k < |e| ==> (e[k].Reg? ==> e[k].reg < n)
    requires Checked(o, o', n, ok, error) && o'.Running?
    ensures o.Running? && ok
    ensures Dims(t, memReg, loc, mem, o') == Dims(t, memReg, loc, mem, o)
    ensures Subs(e, o') == Subs(e, o)
    ensures |t.dims| == |e| ==> ChecksAt(t, e, memReg, loc, mem, o') == ChecksAt(t, e, memReg, loc, mem, o)
  {
    StableView(t, e, memReg, loc, mem, n, o, o');
  }

  /** One more dimension multiplies the block and adds to the offset. */
  lemma IndexStepCorrect(d: seq<int>, x: seq<int>, i: nat, block: int32, size: int32, last: int)
    requires i < |d| == |x|
    requires block == Wrap(SizeFrom(d, i + 1)) && size == Wrap(OffsetFrom(d, x, i + 1) - last)
    ensures Wrap(block * Wrap(d[i] + 1)) == Wrap(SizeFrom(d, i))
    ensures Wrap(size + Wrap(block * x[i])) == Wrap(OffsetFrom(d, x, i) - last)
  {
    hide Wrap, SizeFrom, OffsetFrom;
    SizeStep(d, i);
    OffsetStep(d, x, i);
    var z := SizeFrom(d, i + 1);
    WrapBlock(z, d[i] + 1, block);
    WrapTerm(OffsetFrom(d, x, i + 1) - last, z, x[i], block, size);
  }

  /** The size of a dimension, and a subscript times the block. */
  method ScaleIndex(s: Section, maxe: Exp, index: Exp, blocke: Exp) returns (dim: Exp, edup: Exp)
    requires s.Valid() && s.Scoped(maxe) && s.Scoped(index) && s.Scoped(blocke)
    modifies s
    ensures Continues(s) && s.Scoped(dim) && s.Scoped(edup)
    ensures old(s.now).Running? ==>
              var regs := old(s.now).regs;
              && Value(dim, s.now.regs) == Wrap(Value(maxe, regs) + 1)
              && Value(edup, s.now.regs) == Wrap(Value(blocke, regs) * Value(index, regs))
  {
    hide IsTrace, RegisterJumps, Section.Valid, Wrap;
    dim := Sum(s, maxe, Const(1));
    edup := Product(s, blocke, index);
  }

  /** Adds a subscript times the block to the offset and multiplies the block. */
  method Accumulate(s: Section, maxe: Exp, index: Exp, blocke: Exp, sizee: Exp) returns (blocke': Exp, sizee': Exp)
    requires s.Valid() && s.Scoped(maxe) && s.Scoped(index) && s.Scoped(blocke) && s.Scoped(sizee)
    modifies s
    ensures Continues(s) && s.Scoped(blocke') && s.Scoped(sizee')
    ensures old(s.now).Running? ==>
              var regs := old(s.now).regs;
              && Value(blocke', s.now.regs) == Wrap(Value(blocke, regs) * Wrap(Value(maxe, regs) + 1))
              && Value(sizee', s.now.regs) == Wrap(Value(sizee, regs) + Wrap(Value(blocke, regs) * Value(index, regs)))
  {
    hide IsTrace, RegisterJumps, Section.Valid, Wrap;
    var dim, edup := ScaleIndex(s, maxe, index, blocke);
    blocke' := Product(s, blocke, dim);
    sizee' := Sum(s, sizee, edup);
  }

  lemma ViewAt(t: ArrayType, e: seq<Exp>, memReg: nat, loc: int32, mem: Memory, o: Outcome, i: nat)
    requires i < |e| == |t.dims|
    ensures var regs := RegsOf(o);
            var extent := Extent(t, i, Get(regs, memReg), loc, mem);
            && Dims(t, memReg, loc, mem, o)[i] == extent && Subs(e, o)[i] == Value(e[i], regs)
            && (Static(t, e, i) <==> e[i].Const? && t.dims[i] != DYNAMIC_DIMENSION)
            && ChecksAt(t, e, memReg, loc, mem, o)[i]
               == Passes(0 <= Value(e[i], regs) <= extent, Folded(t, e, i), Get(regs, 0), mem.beyond)
  {
    hide Folded;
  }

  method IndexStep(s: Section, t: ArrayType, e: seq<Exp>, i: nat, memReg: nat, loc: int32, blocke: Exp, sizee: Exp,
                   ghost last: int)
    returns (blocke': Exp, sizee': Exp)
    requires s.Valid() && ScopedAll(s, e) && s.Scoped(blocke) && s.Scoped(sizee) && memReg < s.regCounter
    requires i < |e| == |t.dims| && 0 <= loc && loc + DIMS_OFF + 4 * |e| <= INT_MAX
    requires Folded(t, e, i) <==> Static(t, e, i)
    requires s.now.Running? ==>
               var d, x := Dims(t, memReg, loc, s.mem, s.now), Subs(e, s.now);
               && Value(blocke, s.now.regs) == Wrap(SizeFrom(d, i + 1))
               && Value(sizee, s.now.regs) == Wrap(OffsetFrom(d, x, i + 1) - last)
    modifies s
    ensures s.Scoped(blocke') && s.Scoped(sizee')
    ensures RegisterJumps(s.ops) <==> RegisterJumps(old(s.ops)) && !Folded(t, e, i)
    ensures var d, x := Dims(t, memReg, loc, s.mem, old(s.now)), Subs(e, old(s.now));
            && Guards(s, ChecksAt(t, e, memReg, loc, s.mem, old(s.now))[i])
            && (s.now.Running? ==>
                  && Value(blocke', s.now.regs) == Wrap(SizeFrom(d, i))
                  && Value(sizee', s.now.regs) == Wrap(OffsetFrom(d, x, i) - last))
  {
    hide IsTrace, RegisterJumps, Section.Valid, Step, Wrap, SizeFrom, OffsetFrom, Dims, Subs, ChecksAt, Static, Folded;
    ViewAt(t, e, memReg, loc, s.mem, s.now, i);
    if s.now.Running? {
      IndexStepCorrect(Dims(t, memReg, loc, s.mem, s.now), Subs(e, s.now), i,
                       Value(blocke, s.now.regs), Value(sizee, s.now.regs), last);
    }
    var maxe := CheckDynamicIndex(s, t, e[i], i, memReg, loc);
    blocke', sizee' := Accumulate(s, maxe, e[i], blocke, sizee);
  }

  /** What the emitted code has established when the dimensions after i have been
      checked and accumulated, having started from begin. */
  ghost predicate Progress(begin: Outcome, o: Outcome, n: nat, error: Option<nat>, d: seq<int>, x: seq<int>,
                           c: seq<bool>, i: int, dynStart: int, blocke: Exp, sizee: Exp, last: int)
    requires -1 <= i <= dynStart < |d| == |x| == |c|
  {
    && Checked(begin, o, n, forall k :: i < k <= dynStart ==> c[k], error)
    && (o.Running? ==>
          && (i >= 0 ==> Value(blocke, o.regs) == Wrap(SizeFrom(d, i + 1)))
          && Value(sizee, o.regs) == Wrap(OffsetFrom(d, x, i + 1) - last))
  }

  lemma ProgressStart(o: Outcome, n: nat, error: Option<nat>, d: seq<int>, x: seq<int>, c: seq<bool>,
                      i: int, blocke: Exp, sizee: Exp, last: int)
    requires -1 <= i < |d| == |x| == |c|
    requires o.Running? ==>
               && (i >= 0 ==> Value(blocke, o.regs) == Wrap(SizeFrom(d, i + 1)))
               && Value(sizee, o.regs) == Wrap(OffsetFrom(d, x, i + 1) - last)
    ensures Progress(o, o, n, error, d, x, c, i, i, blocke, sizee, last)
  {}

  lemma ProgressStep(begin: Outcome, mid: Outcome, o: Outcome, n: nat, n': nat, error: Option<nat>, error': Option<nat>,
                     d: seq<int>, x: seq<int>, c: seq<bool>, d': seq<int>, x': seq<int>, c': seq<bool>,
                     i: nat, dynStart: int,
                     blocke: Exp, sizee: Exp, blocke': Exp, sizee': Exp, last: int)
    requires i <= dynStart < |d| == |x| == |c| && |d'| == |x'| == |c'| == |d|
    requires Progress(begin, mid, n, error, d, x, c, i, dynStart, blocke, sizee, last)
    requires n <= n' && (error.Some? ==> error' == error)
    requires mid.Running? ==> d' == d && x' == x && c' == c
    requires Checked(mid, o, n', c'[i], error')
    requires o.Running? ==>
               && Value(blocke', o.regs) == Wrap(SizeFrom(d', i))
               && Value(sizee', o.regs) == Wrap(OffsetFrom(d', x', i) - last)
    ensures Progress(begin, o, n, error', d, x, c, i - 1, dynStart, blocke', sizee', last)
  {
    hide Wrap, SizeFrom, OffsetFrom, Checked, Value;
    var p := forall k :: i < k <= dynStart ==> c[k];
    CheckedTwice(begin, mid, o, n, n', p, c'[i], c[i], error, error');
    assert (p && c[i]) == (forall k :: i - 1 < k <= dynStart ==> c[k]);
  }

  /** The dimensions up to dynStart, from the last to the first. */
  method DynamicPart(s: Section, t: ArrayType, e: seq<Exp>, dynStart: int, memReg: nat, loc: int32,
                     block: Exp, size: Exp, ghost last: int)
    returns (sizee: Exp)
    requires s.Valid() && ScopedAll(s, e) && s.Scoped(block) && s.Scoped(size) && memReg < s.regCounter
    requires -1 <= dynStart < |e| == |t.dims| && 0 <= loc && loc + DIMS_OFF + 4 * |e| <= INT_MAX
    requires forall k :: 0 <= k <= dynStart ==> (Folded(t, e, k) <==> Static(t, e, k))
    requires s.now.Running? ==>
               var d, x := Dims(t, memReg, loc, s.mem, s.now), Subs(e, s.now);
               && (dynStart >= 0 ==> Value(block, s.now.regs) == Wrap(SizeFrom(d, dynStart + 1)))
               && Value(size, s.now.regs) == Wrap(OffsetFrom(d, x, dynStart + 1) - last)
    modifies s
    ensures s.Scoped(sizee)
    ensures RegisterJumps(s.ops) <==> RegisterJumps(old(s.ops)) && forall k :: 0 <= k <= dynStart ==> !Folded(t, e, k)
    ensures var d, x := Dims(t, memReg, loc, s.mem, old(s.now)), Subs(e, old(s.now));
            && Guards(s, forall k :: 0 <= k <= dynStart ==> ChecksAt(t, e, memReg, loc, s.mem, old(s.now))[k])
            && (s.now.Running? ==> Value(sizee, s.now.regs) == Wrap(Offset(d, x) - last))
  {
    hide IsTrace, RegisterJumps, Section.Valid, Step, Wrap, SizeFrom, OffsetFrom, Dims, Subs, ChecksAt, Folded,
         Value, Checked;
    ghost var d, x, c := Dims(t, memReg, loc, s.mem, s.now), Subs(e, s.now), ChecksAt(t, e, memReg, loc, s.mem, s.now);
    ghost var begin, n := s.now, s.regCounter;
    ProgressStart(begin, n, s.arrayAccess, d, x, c, dynStart, block, size, last);
    var blocke := block;
    sizee := size;
    var i := dynStart;
    while i >= 0
      invariant -1 <= i <= dynStart
      invariant Grows(s) && s.Scoped(blocke) && s.Scoped(sizee)
      invariant Progress(begin, s.now, n, s.arrayAccess, d, x, c, i, dynStart, blocke, sizee, last)
      invariant RegisterJumps(s.ops) <==> RegisterJumps(old(s.ops)) && forall k :: i < k <= dynStart ==> !Folded(t, e, k)
    {
      ghost var mid, midRegs, midError := s.now, s.regCounter, s.arrayAccess;
      if mid.Running? {
        StableAfterCheck(t, e, memReg, loc, s.mem, n, begin, mid,
                         forall k :: i < k <= dynStart ==> c[k], midError);
      }
      ghost var blocke0, sizee0 := blocke, sizee;
      blocke, sizee := IndexStep(s, t, e, i, memReg, loc, blocke, sizee, last);
      ProgressStep(begin, mid, s.now, n, midRegs, midError, s.arrayAccess, d, x, c,
                   Dims(t, memReg, loc, s.mem, mid), Subs(e, mid), ChecksAt(t, e, memReg, loc, s.mem, mid),
                   i, dynStart, blocke0, sizee0, blocke, sizee, last);
      i := i - 1;
    }
  }

  /** Scales an offset in elements to bytes. */
  method DataSize(s: Section, el: Element, e: Exp) returns (scaled: Exp)
    requires s.Valid() && s.Scoped(e)
    modifies s
    ensures Emits(s, scaled, Some(Wrap(Value(e, RegsOf(old(s.now))) * el.Bytes())))
  {
    hide IsTrace, RegisterJumps, Section.Valid, Step, Wrap, Lsl32;
    match el
    case Integers =>
      ghost var x := Value(e, RegsOf(s.now));
      var r := Materialise(s, e);
      var shifted := Emit(s, LslI(s.regCounter, r, 2));
      scaled := Reg(shifted);
      ShiftIsScale(x);
    case Strings =>
      scaled := Product(s, e, Const(el.Bytes()));
  }

  method ComputeElementAddress(s: Section, el: Element, memReg: nat, loc: int32, sizee: Exp) returns (e: Exp)
    requires s.Valid() && s.Scoped(sizee) && memReg < s.regCounter
    requires 0 <= loc && loc + DATA_OFF <= INT_MAX
    modifies s
    ensures var regs := RegsOf(old(s.now));
            Emits(s, e, Some(ElementAddress(el, Get(regs, memReg), loc, s.mem, Value(sizee, regs))))
  {
    hide IsTrace, RegisterJumps, Section.Valid, Step, Wrap, ElementAddress, Load;
    ghost var regs := RegsOf(s.now);
    var base := LoadWord(s, memReg, loc + DATA_OFF);
    if sizee == Const(0) {
      BaseAddress(el, Get(regs, memReg), loc, s.mem);
      return Reg(base);
    }
    var scaled := DataSize(s, el, sizee);
    e := Sum(s, Reg(base), scaled);
    AddressSum(el, Get(regs, memReg), loc, s.mem, Value(sizee, regs));
  }

  lemma AddressSum(el: Element, base: int32, loc: int32, mem: Memory, offset: int32)
    requires 0 <= loc && loc + DATA_OFF <= INT_MAX
    ensures Wrap(Load(mem, Wrap(base + (loc + DATA_OFF))) + Wrap(offset * el.Bytes()))
            == ElementAddress(el, base, loc, mem, offset)
  {
    hide Wrap;
    WrapAdd(offset * el.Bytes(), Load(mem, Wrap(base + (loc + DATA_OFF))));
  }

  /** The address of an element: the data pointer plus the scaled offset. */
  function ElementAddress(el: Element, base: int32, loc: int32, mem: Memory, offset: int): int32
    requires 0 <= loc && loc + DATA_OFF <= INT_MAX
  {
    Wrap(Load(mem, Wrap(base + (loc + DATA_OFF))) + offset * el.Bytes())
  }

  /** The words of a descriptor: the data pointer is the second, the dimensions follow
      the first four. Elements are one word or, for strings, a descriptor of four. */
  lemma DescriptorLayout(t: ArrayType, k: nat, base: int32, loc: int32, mem: Memory, offset: int)
    requires k < |t.dims| && 0 <= base && 0 <= loc && 0 <= offset && base + loc + 16 + 4 * k < 0x8000_0000
    ensures Strings.Bytes() == ArrayRefs.STRING_SIZE == DIMS_OFF == 16 && Integers.Bytes() == 4
    ensures t.dims[k] == -1 && base + loc + 16 + 4 * k in mem.words ==>
              Extent(t, k, base, loc, mem) == mem.words[base + loc + 16 + 4 * k]
    ensures t.dims[k] != -1 ==> Extent(t, k, base, loc, mem) == t.dims[k]
    ensures base + loc + 4 in mem.words ==>
              var address := mem.words[base + loc + 4] + offset * (if t.el.Integers? then 4 else 16);
              address < 0x8000_0000 ==> ElementAddress(t.el, base, loc, mem, offset) == address
  {}

  lemma BaseAddress(el: Element, base: int32, loc: int32, mem: Memory)
    requires 0 <= loc && loc + DATA_OFF <= INT_MAX
    ensures ElementAddress(el, base, loc, mem, 0) == Load(mem, Wrap(base + (loc + DATA_OFF)))
  {}

  lemma ShiftIsScale(x: int32)
    ensures Lsl32(x, 2) == Wrap(x * 4)
  {
    assert Pow2(2) == 4;
  }

  lemma AddressModulo(el: Element, base: int32, loc: int32, mem: Memory, offset: int)
    requires 0 <= loc && loc + DATA_OFF <= INT_MAX
    ensures ElementAddress(el, base, loc, mem, Wrap(offset)) == ElementAddress(el, base, loc, mem, offset)
  {
    hide Wrap;
    var data := Load(mem, Wrap(base + (loc + DATA_OFF)));
    WrapMul(offset, el.Bytes());
    WrapAdd(Wrap(offset) * el.Bytes(), data);
    WrapAdd(offset * el.Bytes(), data);
  }

  lemma {:induction false} SameSuffix(d: seq<int>, d': seq<int>, x: seq<int>, x': seq<int>, i: nat)
    requires i <= |d| == |d'| == |x| == |x'|
    requires forall k :: i <= k < |d| ==> d[k] == d'[k] && x[k] == x'[k]
    ensures SizeFrom(d, i) == SizeFrom(d', i) && OffsetFrom(d, x, i) == OffsetFrom(d', x', i)
    decreases |d| - i
  {
    if i < |d| {
      SameSuffix(d, d', x, x', i + 1);
    }
  }

  /** The trailing dimensions handled at compile time look the same at run time. */
  lemma StaticBounds(t: ArrayType, e: seq<Exp>, memReg: nat, loc: int32, mem: Memory, o: Outcome, first: nat)
    requires first <= |e| == |t.dims|
    requires forall k: nat :: first <= k < |e| ==> Static(t, e, k) && 0 <= e[k].integer <= t.dims[k]
    ensures var d, x := Dims(t, memReg, loc, mem, o), Subs(e, o);
            && SizeFrom(d, first) == SizeFrom(t.dims, first)
            && OffsetFrom(d, x, first) == OffsetFrom(t.dims, Constants(e), first)
            && (forall k: nat :: first <= k < |e| ==> 0 <= x[k] <= d[k] && x[k] == Constants(e)[k])
  {
    var d, x := Dims(t, memReg, loc, mem, o), Subs(e, o);
    forall k: nat | first <= k < |e|
      ensures 0 <= x[k] <= d[k] && x[k] == Constants(e)[k] && d[k] == t.dims[k]
    {
      assert Static(t, e, k);
    }
    SameSuffix(d, t.dims, x, Constants(e), first);
  }

  /** Only subscripts before the ones handled at compile time can be folded. */
  lemma FoldedPart(t: ArrayType, e: seq<Exp>, first: nat)
    requires first <= |e| == |t.dims|
    requires forall k: nat :: first <= k < |e| ==> Static(t, e, k)
    requires first > 0 ==> !Static(t, e, first - 1)
    ensures forall k: nat :: k < |e| ==> (Folded(t, e, k) <==> k < first && Static(t, e, k))
    ensures 0 < |e| ==> !Folded(t, e, |e| - 1)
  {}

  lemma StaticChecks(t: ArrayType, e: seq<Exp>, memReg: nat, loc: int32, mem: Memory, o: Outcome, first: nat)
    requires first <= |e| == |t.dims|
    requires forall k: nat :: first <= k < |e| ==> Static(t, e, k) && 0 <= e[k].integer <= t.dims[k] && !Folded(t, e, k)
    ensures forall k: nat :: first <= k < |e| ==> ChecksAt(t, e, memReg, loc, mem, o)[k]
  {
    hide Folded, SizeFrom, OffsetFrom;
    StaticBounds(t, e, memReg, loc, mem, o, first);
  }

  /** The number of elements of the last dimension, when it starts the run time part. */
  method LastBlock(s: Section, t: ArrayType, memReg: nat, loc: int32) returns (blocke: Exp)
    requires s.Valid() && memReg < s.regCounter
    requires 0 < |t.dims| && 0 <= loc && loc + DIMS_OFF + 4 * |t.dims| <= INT_MAX
    modifies s
    ensures var last := |t.dims| - 1;
            Emits(s, blocke, Some(Wrap(SizeFrom(Dims(t, memReg, loc, s.mem, old(s.now)), last))))
  {
    hide IsTrace, RegisterJumps, Section.Valid, Step, Wrap, SizeFrom, Dims, Load;
    var last := |t.dims| - 1;
    LastSize(t, memReg, loc, s.mem, s.now);
    var maxe := GetDimSize(s, t.dims[last], loc + DIMS_OFF + 4 * last, memReg);
    blocke := Sum(s, maxe, Const(1));
  }

  lemma LastSize(t: ArrayType, memReg: nat, loc: int32, mem: Memory, o: Outcome)
    requires 0 < |t.dims|
    ensures var last := |t.dims| - 1;
            SizeFrom(Dims(t, memReg, loc, mem, o), last) == Extent(t, last, Get(RegsOf(o), memReg), loc, mem) + 1
  {
    hide SizeFrom;
    var d := Dims(t, memReg, loc, mem, o);
    SizeStep(d, |d| - 1);
    SizeEmpty(d);
  }

  /** The compile time part, and the registers the run time part starts from. If no
      subscript was handled at compile time, the last one is left for the end. */
  method OffsetStart(s: Section, t: ArrayType, memReg: nat, loc: int32, e: seq<Exp>)
    returns (r: Result<(int, Exp, Exp)>)
    requires s.Valid() && ScopedAll(s, e) && memReg < s.regCounter
    requires 1 < |e| == |t.dims| && 0 <= loc && loc + DIMS_OFF + 4 * |t.dims| <= INT_MAX
    modifies s
    ensures r.Failure? <==> StaticError(t, e)
    ensures r.Success? ==>
              var (dynStart, blocke, sizee) := r.value;
              var d, x := Dims(t, memReg, loc, s.mem, old(s.now)), Subs(e, old(s.now));
              && -1 <= dynStart < |e| - 1 && s.Scoped(blocke) && s.Scoped(sizee)
              && (forall k: nat :: k < |e| ==> (Folded(t, e, k) <==> k <= dynStart && Static(t, e, k)))
              && (forall k: nat :: dynStart < k < |e| - 1 ==> ChecksAt(t, e, memReg, loc, s.mem, old(s.now))[k])
              && Guards(s, true) && RegisterJumps(s.ops) == RegisterJumps(old(s.ops))
              && (s.now.Running? ==>
                    && Value(blocke, s.now.regs) == Wrap(SizeFrom(d, dynStart + 1))
                    && Value(sizee, s.now.regs) == Wrap(OffsetFrom(d, x, dynStart + 1) - x[|e| - 1]))
  {
    hide IsTrace, RegisterJumps, Section.Valid, Step, Wrap, SizeFrom, OffsetFrom, Dims, Subs, ChecksAt, Folded, Static,
         Yields, Checked;
    ghost var begin, n := s.now, s.regCounter;
    ghost var d, x := Dims(t, memReg, loc, s.mem, begin), Subs(e, begin);
    var constants :- CheckConstantDims(t, e);
    var (arraySize, dynStart, blockSize) := constants;
    FoldedPart(t, e, dynStart + 1);
    StaticChecks(t, e, memReg, loc, s.mem, begin, dynStart + 1);
    StaticBounds(t, e, memReg, loc, s.mem, begin, dynStart + 1);
    var reg := Materialise(s, Const(Wrap(arraySize)));
    ghost var mid := s.now;
    YieldsChecked(begin, mid, n, Reg(reg), Wrap(arraySize), s.arrayAccess);
    var blocke := Const(blockSize);
    if dynStart == |e| - 1 {
      dynStart := dynStart - 1;
      if mid.Running? {
        StableAfterCheck(t, e, memReg, loc, s.mem, n, begin, mid, true, s.arrayAccess);
      }
      ghost var midRegs := s.regCounter;
      blocke := LastBlock(s, t, memReg, loc);
      AfterYields(begin, mid, s.now, n, midRegs, Reg(reg), blocke,
                  Wrap(SizeFrom(Dims(t, memReg, loc, s.mem, mid), |e| - 1)), s.arrayAccess);
      LastTerm(d, x);
    }
    r := Success((dynStart, blocke, Reg(reg)));
  }

  /** Computing a second value keeps the first. */
  lemma AfterYields(o: Outcome, mid: Outcome, o': Outcome, n: nat, n': nat, e: Exp, f: Exp, v: int32, error: Option<nat>)
    requires Checked(o, mid, n, true, error) && Yields(mid, o', n', f, Some(v))
    requires n <= n' && (e.Reg? ==> e.reg < n')
    ensures Checked(o, o', n, true, error)
    ensures o'.Running? ==> mid.Running? && Value(e, o'.regs) == Value(e, mid.regs) && Value(f, o'.regs) == v
  {}

  /** The row-major address of an element. The code emitted goes on exactly when all
      checks pass; if the subscripts are in order these are the bounds checks, and
      only then does every jump test a register. */
  method IndexCalc(s: Section, t: ArrayType, memReg: nat, loc: int32, e: seq<Exp>) returns (r: Result<Exp>)
    requires s.Valid() && ScopedAll(s, e) && memReg < s.regCounter
    requires 0 < |t.dims| && 0 <= loc && loc + DIMS_OFF + 4 * |t.dims| <= INT_MAX
    modifies s
    ensures r.Failure? <==> |e| != |t.dims| || StaticError(t, e)
    ensures r.Success? ==>
              var d, x := Dims(t, memReg, loc, s.mem, old(s.now)), Subs(e, old(s.now));
              && s.Scoped(r.value)
              && Guards(s, AllPass(ChecksAt(t, e, memReg, loc, s.mem, old(s.now))))
              && (s.now.Running? ==>
                    Value(r.value, s.now.regs)
                    == ElementAddress(t.el, Get(old(s.now).regs, memReg), loc, s.mem, Offset(d, x)))
    ensures r.Success? && InOrder(t, e) ==>
              Guards(s, InBounds(Dims(t, memReg, loc, s.mem, old(s.now)), Subs(e, old(s.now))))
    ensures r.Success? ==> (RegisterJumps(s.ops) <==> RegisterJumps(old(s.ops)) && InOrder(t, e))
  {
    hide IsTrace, RegisterJumps, Section.Valid, Step, Wrap, SizeFrom, OffsetFrom, ElementAddress,
         Folded, Checks, AllPass;
    if |e| != |t.dims| {
      return Failure;
    }
    var sizee: Exp;
    if |e| == 1 {
      sizee :- FirstIndex(s, t, memReg, loc, e);
    } else {
      sizee :- ManyIndices(s, t, memReg, loc, e);
    }
    ghost var d, x := Dims(t, memReg, loc, s.mem, old(s.now)), Subs(e, old(s.now));
    if InOrder(t, e) {
      InOrderChecks(t, e, d, x, Get(RegsOf(old(s.now)), 0), s.mem.beyond);
    }
    if s.now.Running? {
      AddressModulo(t.el, Get(s.now.regs, memReg), loc, s.mem, Offset(d, x));
    }
    var address := ComputeElementAddress(s, t.el, memReg, loc, sizee);
    r := Success(address);
  }

  method FirstIndex(s: Section, t: ArrayType, memReg: nat, loc: int32, e: seq<Exp>) returns (r: Result<Exp>)
    requires s.Valid() && ScopedAll(s, e) && memReg < s.regCounter
    requires 1 == |e| == |t.dims| && 0 <= loc && loc + DIMS_OFF + 4 * |t.dims| <= INT_MAX
    modifies s
    ensures r.Failure? <==> StaticError(t, e)
    ensures r.Success? ==>
              var d, x := Dims(t, memReg, loc, s.mem, old(s.now)), Subs(e, old(s.now));
              && s.Scoped(r.value) && Guards(s, AllPass(ChecksAt(t, e, memReg, loc, s.mem, old(s.now))))
              && (s.now.Running? ==> Value(r.value, s.now.regs) == Wrap(Offset(d, x)))
              && (RegisterJumps(s.ops) <==> RegisterJumps(old(s.ops)) && InOrder(t, e))
  {
    hide IsTrace, RegisterJumps, Section.Valid, Step, Wrap, SizeFrom, OffsetFrom;
    ghost var d, x := Dims(t, memReg, loc, s.mem, s.now), Subs(e, s.now);
    var _ :- CheckLastIndex(s, t, e, memReg, loc);
    var reg := Materialise(s, e[0]);
    LastTerm(d, x);
    WrapInt32(Value(e[0], RegsOf(old(s.now))));
    r := Success(Reg(reg));
  }

  method ManyIndices(s: Section, t: ArrayType, memReg: nat, loc: int32, e: seq<Exp>) returns (r: Result<Exp>)
    requires s.Valid() && ScopedAll(s, e) && memReg < s.regCounter
    requires 1 < |e| == |t.dims| && 0 <= loc && loc + DIMS_OFF + 4 * |t.dims| <= INT_MAX
    modifies s
    ensures r.Failure? <==> StaticError(t, e)
    ensures r.Success? ==>
              var d, x := Dims(t, memReg, loc, s.mem, old(s.now)), Subs(e, old(s.now));
              && s.Scoped(r.value) && Guards(s, AllPass(ChecksAt(t, e, memReg, loc, s.mem, old(s.now))))
              && (s.now.Running? ==> Value(r.value, s.now.regs) == Wrap(Offset(d, x)))
              && (RegisterJumps(s.ops) <==> RegisterJumps(old(s.ops)) && InOrder(t, e))
  {
    hide IsTrace, RegisterJumps, Section.Valid, Step, Wrap, Offset, Dims, Subs, ChecksAt, Static, Yields, Checked,
         AllPass, StaticError, InOrder;
    ghost var begin, n := s.now, s.regCounter;
    ghost var d, x, c := Dims(t, memReg, loc, s.mem, begin), Subs(e, begin), ChecksAt(t, e, memReg, loc, s.mem, begin);
    ghost var last := |e| - 1;
    var sizee :- UpperIndices(s, t, memReg, loc, e);
    ghost var mid, midRegs, midError := s.now, s.regCounter, s.arrayAccess;
    ghost var upper := AllPass(c[..last]);
    if mid.Running? {
      StableAfterCheck(t, e, memReg, loc, s.mem, n, begin, mid, upper, midError);
    }
    ghost var c' := ChecksAt(t, e, memReg, loc, s.mem, mid);
    r := AddLastIndex(s, t, memReg, loc, e, sizee, Offset(d, x));
    if r.Success? {
      CheckedTwice(begin, mid, s.now, n, midRegs, upper, c'[last], c[last], midError, s.arrayAccess);
      LastCheck(c);
    }
  }

  lemma LastCheck(c: seq<bool>)
    requires 0 < |c|
    ensures AllPass(c) <==> AllPass(c[..|c| - 1]) && c[|c| - 1]
  {}

  /** All subscripts but the last. */
  method UpperIndices(s: Section, t: ArrayType, memReg: nat, loc: int32, e: seq<Exp>) returns (r: Result<Exp>)
    requires s.Valid() && ScopedAll(s, e) && memReg < s.regCounter
    requires 1 < |e| == |t.dims| && 0 <= loc && loc + DIMS_OFF + 4 * |t.dims| <= INT_MAX
    modifies s
    ensures r.Failure? <==> StaticError(t, e)
    ensures r.Success? ==>
              var d, x := Dims(t, memReg, loc, s.mem, old(s.now)), Subs(e, old(s.now));
              && s.Scoped(r.value) && Guards(s, AllPass(ChecksAt(t, e, memReg, loc, s.mem, old(s.now))[..|e| - 1]))
              && (s.now.Running? ==> Value(r.value, s.now.regs) == Wrap(Offset(d, x) - x[|e| - 1]))
              && (RegisterJumps(s.ops) <==> RegisterJumps(old(s.ops)) && InOrder(t, e))
  {
    hide IsTrace, RegisterJumps, Section.Valid, Step, Wrap, SizeFrom, OffsetFrom, Dims, Subs, ChecksAt, Folded, Static,
         Yields, Checked, AllPass, StaticError, InOrder;
    ghost var begin, n := s.now, s.regCounter;
    ghost var d, x, c := Dims(t, memReg, loc, s.mem, begin), Subs(e, begin), ChecksAt(t, e, memReg, loc, s.mem, begin);
    var start :- OffsetStart(s, t, memReg, loc, e);
    var (dynStart, blocke, sizee) := start;
    ghost var mid, midRegs, midError := s.now, s.regCounter, s.arrayAccess;
    if mid.Running? {
      StableAfterCheck(t, e, memReg, loc, s.mem, n, begin, mid, true, midError);
    }
    sizee := DynamicPart(s, t, e, dynStart, memReg, loc, blocke, sizee, x[|e| - 1]);
    ghost var c' := ChecksAt(t, e, memReg, loc, s.mem, mid);
    CheckedTwice(begin, mid, s.now, n, midRegs, true, forall k :: 0 <= k <= dynStart ==> c'[k],
                 forall k :: 0 <= k <= dynStart ==> c[k], midError, s.arrayAccess);
    UpperChecks(t, e, c, dynStart);
    r := Success(sizee);
  }

  lemma UpperChecks(t: ArrayType, e: seq<Exp>, c: seq<bool>, dynStart: int)
    requires 0 < |e| == |t.dims| == |c| && -1 <= dynStart < |c| - 1
    requires forall k: nat :: dynStart < k < |c| - 1 ==> c[k]
    requires forall k: nat :: dynStart < k < |e| ==> !Folded(t, e, k)
    ensures AllPass(c[..|c| - 1]) <==> forall k :: 0 <= k <= dynStart ==> c[k]
    ensures InOrder(t, e) <==> forall k :: 0 <= k <= dynStart ==> !Folded(t, e, k)
  {
    hide Folded;
    var u := c[..|c| - 1];
    assert forall k :: 0 <= k < |u| ==> u[k] == c[k];
  }

  /** Checks the last subscript and adds it to the offset of the others. */
  method AddLastIndex(s: Section, t: ArrayType, memReg: nat, loc: int32, e: seq<Exp>, sizee: Exp, ghost total: int)
    returns (r: Result<Exp>)
    requires s.Valid() && ScopedAll(s, e) && s.Scoped(sizee) && memReg < s.regCounter
    requires 0 < |e| == |t.dims| && 0 <= loc && loc + DIMS_OFF + 4 * |t.dims| <= INT_MAX
    requires s.now.Running? ==> Value(sizee, s.now.regs) == Wrap(total - Subs(e, s.now)[|e| - 1])
    modifies s
    ensures r.Failure? ==> StaticError(t, e)
    ensures r.Success? ==>
              && s.Scoped(r.value) && Guards(s, ChecksAt(t, e, memReg, loc, s.mem, old(s.now))[|e| - 1])
              && (s.now.Running? ==> Value(r.value, s.now.regs) == Wrap(total))
              && RegisterJumps(s.ops) == RegisterJumps(old(s.ops))
  {
    hide IsTrace, RegisterJumps, Section.Valid, Step, Wrap, Static;
    ghost var last := Subs(e, s.now)[|e| - 1];
    WrapAdd(total - last, last);
    var _ :- CheckLastIndex(s, t, e, memReg, loc);
    var sum := Sum(s, e[|e| - 1], sizee);
    r := Success(sum);
  }

  /** For an array of nine integers a(c, i) with a constant c and a variable i has a
      folded check. Whether it goes on depends on what the machine finds past its
      registers or in register 0, and not only on the subscripts. */
  method ConstantThenVariable(c: int32, ghost mem: Memory, ghost start: Regs) returns (ops: seq<Instr>)
    ensures !RegisterJumps(ops)
    ensures Run(ops, mem, start).Running? <==>
            0 <= Get(start, 1) <= 2 && (if 0 <= c <= 2 then mem.beyond else Get(start, 0)) != 0
  {
    hide IsTrace, RegisterJumps, Section.Valid, Step, Run, Wrap, ElementAddress;
    var s := new Section(2, mem, start);
    var t, e := ArrayType([2, 2], Integers), [Const(c), Reg(1)];
    assert !Static(t, e, 1) && Folded(t, e, 0) && !Folded(t, e, 1);
    ghost var checks := ChecksAt(t, e, 0, 0, mem, s.now);
    assert checks[0] == ((if 0 <= c <= 2 then mem.beyond else Get(start, 0)) != 0);
    assert checks[1] == (0 <= Get(start, 1) <= 2);
    var r := IndexCalc(s, t, 0, 0, e);
    s.NowIsRun();
    ops := s.ops;
  }

  // ----- The size of an array -----

  ghost function IsConstant(e: seq<Exp>): (c: seq<bool>)
    ensures |c| == |e| && forall k :: 0 <= k < |c| ==> c[k] == e[k].Const?
  {
    seq(|e|, k requires 0 <= k < |e| => e[k].Const?)
  }

  /** The number of elements the constant dimensions span. */
  ghost function ConstantSize(e: seq<Exp>, i: nat): int
    requires i <= |e|
  {
    PickedFrom(Constants(e), IsConstant(e), true, i)
  }

  ghost predicate NegativeConstant(e: seq<Exp>)
  {
    exists k :: 0 <= k < |e| && e[k].Const? && e[k].integer < 0
  }

  lemma {:induction false} ConstantSizeAt(e: seq<Exp>, x: seq<int>, i: nat)
    requires i <= |e| == |x| && !NegativeConstant(e)
    requires forall k :: 0 <= k < |e| && e[k].Const? ==> x[k] == e[k].integer
    ensures ConstantSize(e, i) == PickedFrom(x, IsConstant(e), true, i) >= 1
    decreases |e| - i
  {
    if i < |e| {
      ConstantSizeAt(e, x, i + 1);
      if e[i].Const? {
        MulMonotone(1, e[i].integer + 1, ConstantSize(e, i + 1));
      }
    }
  }

  /** The product of the constant dimensions. The accumulator has 64 bits and is
      not checked, so the product must fit. */
  method ConstantDimsProduct(e: seq<Exp>) returns (r: Result<int32>)
    requires !NegativeConstant(e) ==> ConstantSize(e, 0) < TWO32 * TWO31
    ensures r.Failure? <==> NegativeConstant(e) || ConstantSize(e, 0) > MAX_CONSTANT_SIZE
    ensures r.Success? ==> r.value == ConstantSize(e, 0)
  {
    var arraySize := 1;
    var i := 0;
    while i < |e|
      invariant 0 <= i <= |e|
      invariant forall k :: 0 <= k < i && e[k].Const? ==> e[k].integer >= 0
      invariant arraySize >= 1 && arraySize * ConstantSize(e, i) == ConstantSize(e, 0)
    {
      if e[i].Const? {
        if e[i].integer < 0 {
          return Failure;
        }
        Regroup(arraySize, e[i].integer + 1, ConstantSize(e, i + 1));
        MulMonotone(1, e[i].integer + 1, arraySize);
        arraySize := arraySize * (e[i].integer + 1);
        if !NegativeConstant(e) {
          ConstantSizeAt(e, Constants(e), i + 1);
          MulMonotone(1, ConstantSize(e, i + 1), arraySize);
          assert arraySize < TWO32 * TWO31;
        }
      }
      i := i + 1;
    }
    if arraySize > MAX_CONSTANT_SIZE {
      return Failure;
    }
    r := Success(arraySize);
  }

  method TimesSize(s: Section, e: Exp, sizee: Exp) returns (sizee': Exp)
    requires s.Valid() && s.Scoped(e) && s.Scoped(sizee)
    modifies s
    ensures var regs := RegsOf(old(s.now));
            Emits(s, sizee', Some(Wrap(Value(sizee, regs) * Wrap(Value(e, regs) + 1))))
  {
    hide IsTrace, RegisterJumps, Section.Valid, Step, Wrap;
    var edup := Sum(s, e, Const(1));
    sizee' := Product(s, sizee, edup);
  }

  /** Checks a dimension known at run time and multiplies the size by it. */
  method MultiplyDim(s: Section, e: Exp, sizee: Exp) returns (sizee': Exp)
    requires s.Valid() && s.Scoped(e) && s.Scoped(sizee) && e.Reg?
    modifies s
    ensures s.Scoped(sizee') && RegisterJumps(s.ops) == RegisterJumps(old(s.ops))
    ensures var x := Value(e, RegsOf(old(s.now)));
            && Guards(s, 0 <= x)
            && (s.now.Running? ==>
                  old(s.now).Running? && Value(sizee', s.now.regs) == Wrap(Value(sizee, old(s.now).regs) * Wrap(x + 1)))
  {
    hide IsTrace, RegisterJumps, Section.Valid, Step, Wrap;
    CheckDynamicDim(s, e, 0, None);
    sizee' := TimesSize(s, e, sizee);
  }

  lemma WrapFactor(a: int, f: int)
    ensures Wrap(Wrap(a) * Wrap(f)) == Wrap(f * a)
  {
    WrapBlock(a, f, Wrap(a));
  }

  /** What the emitted code has established when the dimensions before i have been
      checked and multiplied into acc, having started from begin. */
  ghost predicate SizeProgress(begin: Outcome, o: Outcome, n: nat, error: Option<nat>, e: seq<Exp>, x: seq<int>,
                               i: nat, acc: int, sizee: Exp)
    requires i <= |e| == |x|
  {
    && Checked(begin, o, n, forall k :: 0 <= k < i && e[k].Reg? ==> 0 <= x[k], error)
    && acc * PickedFrom(x, IsConstant(e), false, i) == Size(x)
    && (o.Running? ==> Value(sizee, o.regs) == Wrap(acc))
  }

  lemma SizeProgressSkip(begin: Outcome, o: Outcome, n: nat, error: Option<nat>, e: seq<Exp>, x: seq<int>,
                         i: nat, acc: int, sizee: Exp)
    requires i < |e| == |x| && e[i].Const?
    requires SizeProgress(begin, o, n, error, e, x, i, acc, sizee)
    ensures SizeProgress(begin, o, n, error, e, x, i + 1, acc, sizee)
  {
    hide Checked, Wrap;
    assert (forall k :: 0 <= k < i && e[k].Reg? ==> 0 <= x[k]) == (forall k :: 0 <= k < i + 1 && e[k].Reg? ==> 0 <= x[k]);
  }

  lemma SizeProgressStep(begin: Outcome, mid: Outcome, o: Outcome, n: nat, n': nat, error: Option<nat>, error': Option<nat>,
                         e: seq<Exp>, x: seq<int>, i: nat, acc: int, sizee: Exp, sizee': Exp, xi: int)
    requires i < |e| == |x| && e[i].Reg?
    requires SizeProgress(begin, mid, n, error, e, x, i, acc, sizee)
    requires n <= n' && (error.Some? ==> error' == error) && (mid.Running? ==> xi == x[i])
    requires Checked(mid, o, n', 0 <= xi, error')
    requires o.Running? ==> mid.Running? && Value(sizee', o.regs) == Wrap(Value(sizee, mid.regs) * Wrap(xi + 1))
    ensures SizeProgress(begin, o, n, error', e, x, i + 1, (x[i] + 1) * acc, sizee')
  {
    hide Checked, Wrap, Value;
    var p := forall k :: 0 <= k < i && e[k].Reg? ==> 0 <= x[k];
    CheckedTwice(begin, mid, o, n, n', p, 0 <= xi, 0 <= x[i], error, error');
    WrapFactor(acc, x[i] + 1);
    var rest := PickedFrom(x, IsConstant(e), false, i + 1);
    Regroup(acc, x[i] + 1, rest);
    Regroup(x[i] + 1, acc, rest);
    assert (p && 0 <= x[i]) == (forall k :: 0 <= k < i + 1 && e[k].Reg? ==> 0 <= x[k]);
  }

  lemma SizeProgressStart(o: Outcome, o': Outcome, n: nat, error: Option<nat>, e: seq<Exp>, c: int32, sizee: Exp)
    requires !NegativeConstant(e) && c == ConstantSize(e, 0)
    requires Yields(o, o', n, sizee, Some(c))
    ensures SizeProgress(o, o', n, error, e, Subs(e, o), 0, c, sizee)
  {
    hide Wrap;
    var x := Subs(e, o);
    ConstantValues(e, o);
    ConstantSizeAt(e, x, 0);
    SizeSplit(x, IsConstant(e), 0);
    WrapInt32(c);
  }

  lemma SizeProgressEnd(o: Outcome, o': Outcome, n: nat, error: Option<nat>, e: seq<Exp>, acc: int, sizee: Exp)
    requires !NegativeConstant(e)
    requires SizeProgress(o, o', n, error, e, Subs(e, o), |e|, acc, sizee)
    ensures Checked(o, o', n, NonNegative(Subs(e, o)), error)
    ensures o'.Running? ==> Value(sizee, o'.regs) == Wrap(Size(Subs(e, o)))
  {
    hide Checked, Wrap, Value;
    var x := Subs(e, o);
    ConstantValues(e, o);
    PickedEnd(x, IsConstant(e), false);
    assert NonNegative(x) <==> forall k :: 0 <= k < |e| && e[k].Reg? ==> 0 <= x[k];
  }

  lemma AllConstant(e: seq<Exp>, o: Outcome, n: nat, error: Option<nat>, c: int32)
    requires !NegativeConstant(e) && c == ConstantSize(e, 0)
    requires forall k :: 0 <= k < |e| ==> e[k].Const?
    ensures Checked(o, o, n, NonNegative(Subs(e, o)), error)
    ensures o.Running? ==> Value(Const(c), o.regs) == Wrap(Size(Subs(e, o)))
  {
    var x := Subs(e, o);
    ConstantValues(e, o);
    ConstantSizeAt(e, x, 0);
    SizeSplit(x, IsConstant(e), 0);
    AllPicked(x, IsConstant(e), 0);
    assert NonNegative(x);
  }

  /** The number of elements of an array about to be allocated. Dimensions known
      at run time are checked by the emitted code. */
  method SizeCalc(s: Section, e: seq<Exp>) returns (r: Result<Exp>)
    requires s.Valid() && ScopedAll(s, e)
    requires !NegativeConstant(e) ==> ConstantSize(e, 0) < TWO32 * TWO31
    modifies s
    ensures r.Failure? <==> NegativeConstant(e) || ConstantSize(e, 0) > 0x7ff_ffff
    ensures r.Success? ==>
              var x := Subs(e, old(s.now));
              && s.Scoped(r.value) && Guards(s, NonNegative(x))
              && (s.now.Running? ==> Value(r.value, s.now.regs) == Wrap(Size(x)))
              && RegisterJumps(s.ops) == RegisterJumps(old(s.ops))
  {
    hide IsTrace, RegisterJumps, Section.Valid, Step, Wrap, Size, Subs, Checked, SizeProgress, Yields,
         ConstantSize, NegativeConstant;
    var product :- ConstantDimsProduct(e);
    ghost var begin, n, x := s.now, s.regCounter, Subs(e, s.now);
    if forall k :: 0 <= k < |e| ==> e[k].Const? {
      AllConstant(e, begin, n, s.arrayAccess, product);
      return Success(Const(product));
    }
    var reg := Materialise(s, Const(product));
    var sizee := Reg(reg);
    ghost var acc: int := product;
    SizeProgressStart(begin, s.now, n, s.arrayAccess, e, product, sizee);
    var i := 0;
    while i < |e|
      invariant 0 <= i <= |e|
      invariant Grows(s) && s.Scoped(sizee)
      invariant RegisterJumps(s.ops) == RegisterJumps(old(s.ops))
      invariant SizeProgress(begin, s.now, n, s.arrayAccess, e, x, i, acc, sizee)
    {
      if e[i].Const? {
        SizeProgressSkip(begin, s.now, n, s.arrayAccess, e, x, i, acc, sizee);
      } else {
        ghost var mid, midRegs, midError, sizee0 := s.now, s.regCounter, s.arrayAccess, sizee;
        sizee := MultiplyDim(s, e[i], sizee);
        if mid.Running? {
          StableProgress(e, begin, mid, n, i, midError, acc, sizee0);
        }
        SizeProgressStep(begin, mid, s.now, n, midRegs, midError, s.arrayAccess, e, x, i, acc, sizee0, sizee,
                         Value(e[i], RegsOf(mid)));
        acc := (x[i] + 1) * acc;
      }
      i := i + 1;
    }
    SizeProgressEnd(begin, s.now, n, s.arrayAccess, e, acc, sizee);
    r := Success(sizee);
  }

  lemma ConstantValues(e: seq<Exp>, o: Outcome)
    ensures forall k :: 0 <= k < |e| && e[k].Const? ==> Subs(e, o)[k] == e[k].integer
  {}

  lemma {:induction false} AllPicked(x: seq<int>, pick: seq<bool>, i: nat)
    requires i <= |x| == |pick| && forall k :: 0 <= k < |pick| ==> pick[k]
    ensures PickedFrom(x, pick, false, i) == 1
    decreases |x| - i
  {
    if i < |x| {
      AllPicked(x, pick, i + 1);
    }
  }

  lemma PickedEnd(x: seq<int>, pick: seq<bool>, which: bool)
    requires |x| == |pick|
    ensures PickedFrom(x, pick, which, |x|) == 1
  {}

  lemma StableProgress(e: seq<Exp>, o: Outcome, o': Outcome, n: nat, i: nat, error: Option<nat>, acc: int, sizee: Exp)
    requires i < |e| && (e[i].Reg? ==> e[i].reg < n)
    requires SizeProgress(o, o', n, error, e, Subs(e, o), i, acc, sizee) && o'.Running?
    ensures o.Running? && Value(e[i], RegsOf(o')) == Subs(e, o)[i]
  {}

  // ----- What the checks and the size guarantee together -----

  ghost predicate BlockFits(el: Element, base: int32, loc: int32, mem: Memory, d: seq<int>)
    requires 0 <= loc && loc + DATA_OFF <= INT_MAX
  {
    var data := Load(mem, Wrap(base + (loc + DATA_OFF)));
    0 <= data && data + Size(d) * el.Bytes() <= TWO31
  }

  lemma ElementInside(el: Element, base: int32, loc: int32, mem: Memory, d: seq<int>, x: seq<int>)
    requires InBounds(d, x)
    requires 0 <= loc && loc + DATA_OFF <= INT_MAX && BlockFits(el, base, loc, mem, d)
    ensures var data := Load(mem, Wrap(base + (loc + DATA_OFF)));
            && ElementAddress(el, base, loc, mem, Offset(d, x)) == data + Offset(d, x) * el.Bytes()
            && 0 <= Offset(d, x) < Size(d) == Wrap(Size(d))
  {
    hide SizeFrom, OffsetFrom;
    OffsetInRange(d, x, 0);
    var z := Size(d);
    assert z <= TWO31 / 4;
  }

  /** In a block allocated with the size that SizeCalc returns, the elements that
      IndexCalc addresses lie inside the block, and elements with different
      subscripts do not overlap. */
  lemma ElementsDisjoint(el: Element, base: int32, loc: int32, mem: Memory, d: seq<int>, x: seq<int>, y: seq<int>)
    requires InBounds(d, x) && InBounds(d, y)
    requires 0 <= loc && loc + DATA_OFF <= INT_MAX && BlockFits(el, base, loc, mem, d)
    ensures var data := Load(mem, Wrap(base + (loc + DATA_OFF)));
            var a, b := ElementAddress(el, base, loc, mem, Offset(d, x)), ElementAddress(el, base, loc, mem, Offset(d, y));
            && data <= a && a + el.Bytes() <= data + Wrap(Size(d)) * el.Bytes()
            && (x != y ==> a + el.Bytes() <= b || b + el.Bytes() <= a)
  {
    hide Size, Offset, Wrap, ElementAddress, BlockFits;
    ElementInside(el, base, loc, mem, d, x);
    ElementInside(el, base, loc, mem, d, y);
    if x != y {
      DifferentOffsets(d, x, y);
    }
  }

  lemma DifferentOffsets(d: seq<int>, x: seq<int>, y: seq<int>)
    requires InBounds(d, x) && InBounds(d, y) && x != y
    ensures Offset(d, x) != Offset(d, y)
  {
    if Offset(d, x) == Offset(d, y) {
      OffsetInjective(d, x, y, 0);
    }
  }
}
