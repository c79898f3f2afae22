/** Lowering of 32-bit integer expressions: constant folding, the choice of
    plain, immediate and reversed immediate opcodes, and division and remainder
    by powers of two as shift sequences. */
module Int32Lowering {
  import opened Int32
  import opened IR
  import opened Wrappers

  const REG_LOCAL: nat := 2

  // ----- Arithmetic of the shift sequences -----

  lemma AsrSign(a: int32)
    ensures Asr32(a, 31) == if a < 0 then -1 else 0
  {
    Pow2Is32();
  }

  lemma TopBits(p: int, q: int)
    requires p > 0 && q * p == TWO32
    ensures (TWO32 - 1) / p == q - 1
  {
    assert (q - 1) * p == q * p - p;
    DivModUnique(TWO32 - 1, p, q - 1, p - 1);
  }

  /** The sign word shifted right by 32 - n. */
  function Bias(a: int32, n: nat): int32
    requires n <= 32
  {
    Lsr32(Asr32(a, 31), 32 - n)
  }

  /** Shifting the sign word right by 32 - n leaves 2^n - 1 for negative numbers. */
  lemma SignBias(a: int32, n: nat)
    requires n <= 31
    ensures Bias(a, n) == if a < 0 then Pow2(n) - 1 else 0
  {
    AsrSign(a);
    var p := Pow2(32 - n);
    assert Pow2(n) <= TWO31 by {
      Pow2Is32();
      if n < 31 { Pow2Monotone(n, 31); }
    }
    assert Pow2(n) * p == TWO32 by {
      Pow2Is32();
      Pow2Add(n, 32 - n);
    }
    TopBits(p, Pow2(n));
    DivModUnique(0, p, 0, 0);
  }

  /** Biasing a negative number by p - 1 turns rounding down into rounding
      towards zero, and shifts its remainder up by p - 1. */
  lemma BiasedDivision(a: int, p: int)
    requires p > 0
    ensures a < 0 ==> (a + (p - 1)) / p == -(Abs(a) / p)
    ensures a < 0 ==> (a + (p - 1)) % p == p - 1 - Abs(a) % p
  {
    if a < 0 {
      var q, r := Abs(a) / p, Abs(a) % p;
      assert Abs(a) == p * q + r;
      assert -(p * q) == (-q) * p;
      DivModUnique(a + (p - 1), p, -q, p - 1 - r);
    }
  }

  lemma BiasedShift(a: int32, n: nat)
    requires n <= 31
    ensures Asr32(Wrap(a + Bias(a, n)), n) == if a < 0 then -(Abs(a) / Pow2(n)) else Abs(a) / Pow2(n)
  {
    hide Bias, Pow2;
    SignBias(a, n);
    BiasedDivision(a, Pow2(n));
    Pow2Is32();
    if n < 31 { Pow2Monotone(n, 31); }
    assert Wrap(a + Bias(a, n)) == a + Bias(a, n);
  }

  lemma DivSequence(a: int32, b: int32, n: nat)
    requires n <= 31 && Abs(b) == Pow2(n)
    ensures var t := Bias(a, n);
            var q := Asr32(Wrap(a + t), n);
            Div32(a, b) == if b < 0 then Wrap(0 - q) else q
  {
    hide Bias, Pow2, Asr32;
    BiasedShift(a, n);
    DivShrinks(Abs(a), Pow2(n));
    assert Quot(a, b) == if (a < 0) == (b < 0) then Abs(a) / Pow2(n) else -(Abs(a) / Pow2(n));
  }

  lemma ModSequence(a: int32, b: int32, n: nat)
    requires n <= 31 && Abs(b) == Pow2(n)
    ensures var t := Bias(a, n);
            Mod32(a, b) == Wrap(And32(Wrap(a + t), Pow2(n) - 1) - t)
  {
    hide Bias;
    SignBias(a, n);
    BiasedDivision(a, Pow2(n));
    var t := Bias(a, n);
    AndMask(Wrap(a + t), n);
    QuotFits(a, b);
  }

  /** Whatever the operands, quotient and remainder satisfy the division
      identity modulo 2^32. The quotient wraps only for INT_MIN / -1. */
  lemma DivModIdentity(a: int32, b: int32)
    requires b != 0
    ensures Wrap(Div32(a, b) * b + Mod32(a, b)) == a
    ensures Div32(a, b) == Quot(a, b) || (a == INT_MIN && b == -1 && Div32(a, b) == INT_MIN)
  {
    QuotRem(a, b);
    QuotFits(a, b);
    WrapMul(Quot(a, b), b);
    WrapAdd(Div32(a, b) * b, Mod32(a, b));
    WrapAdd(Quot(a, b) * b, Mod32(a, b));
    if Quot(a, b) != Div32(a, b) {
      assert a == INT_MIN && Quot(a, b) == TWO31;
      assert TWO31 * (b + 1) == Rem(a, b) by { assert a == TWO31 * b + Rem(a, b); }
    }
  }

  /** The search loop shared by the division and remainder emitters. */
  method FindShift(b: int32) returns (n: nat, found: bool)
    requires b != 0
    ensures found <==> IsPowerOfTwo(Abs(b))
    ensures found ==> n <= 31 && Abs(b) == Pow2(n)
  {
    var absB := Abs(b);
    n := 0;
    while absB / 2 >= Pow2(n)
      invariant Pow2(n) <= absB
      decreases absB - Pow2(n)
    {
      n := n + 1;
    }
    found := absB == Pow2(n);
    Pow2Is32();
    if 31 < n { Pow2Monotone(31, n); }
    if IsPowerOfTwo(absB) {
      var k: nat :| absB == Pow2(k);
      if k < n {
        Pow2Monotone(k, n);
      } else if n < k {
        Pow2Monotone(n, k);
      }
    }
  }

  // ----- Emitters -----

  function RegsOf(o: Outcome): Regs { if o.Faulted? then map[] else o.regs }

  function Evaluate(op: Opcode, e1: Exp, e2: Exp, o: Outcome): Option<int32>
  {
    Apply(op, Value(e1, RegsOf(o)), Value(e2, RegsOf(o)))
  }

  /** What an emitter does to a section: it appends code that computes the value
      v into e, and takes new registers and labels for everything it writes. */
  twostate predicate Emits(s: Section, e: Exp, v: Option<int32>)
    reads s
  {
    && s.Valid() && s.Scoped(e) && old(s.ops) <= s.ops
    && s.regCounter >= old(s.regCounter) && s.labelCounter >= old(s.labelCounter)
    && s.arrayAccess == old(s.arrayAccess)
    && RegisterJumps(s.ops) == RegisterJumps(old(s.ops))
    && Yields(old(s.now), s.now, old(s.regCounter), e, v)
  }

  /** The value a straight line instruction writes to its destination. */
  function Written(i: Instr, regs: Regs, mem: Memory): Option<int32>
    requires !i.Jmpc? && !i.Label?
  {
    match i
    case Rrr(op, _, r1, r2) => Apply(op, Get(regs, r1), Get(regs, r2))
    case Rri(op, _, r1, imm) => Apply(op, Get(regs, r1), imm)
    case RSubI(_, r1, imm) => Some(Wrap(imm - Get(regs, r1)))
    case Not(_, r1) => Some(BitNot(Get(regs, r1)))
    case Mov(_, r1) => Some(Get(regs, r1))
    case MovI(_, imm) => Some(imm)
    case LslI(_, r1, count) => Some(Lsl32(Get(regs, r1), count))
    case LsrI(_, r1, count) => Some(Lsr32(Get(regs, r1), count))
    case AsrI(_, r1, count) => Some(Asr32(Get(regs, r1), count))
    case LoadO(_, r1, off) => Some(Load(mem, Wrap(Get(regs, r1) + off)))
  }

  /** Appends an instruction that writes to a new register. */
  method Emit(s: Section, i: Instr) returns (r: nat)
    requires s.Valid() && !i.Jmpc? && !i.Label? && i.r0 == s.regCounter
    modifies s
    ensures r == old(s.regCounter) && s.regCounter == r + 1 && s.labelCounter == old(s.labelCounter)
    ensures Emits(s, Reg(r), Written(i, RegsOf(old(s.now)), s.mem))
  {
    hide IsTrace, RegisterJumps, Section.Valid, Execute, Written;
    ExecuteWrites(i, RegsOf(s.now), s.mem);
    r := s.NewReg();
    s.Append(i);
  }

  lemma ExecuteWrites(i: Instr, regs: Regs, mem: Memory)
    requires !i.Jmpc? && !i.Label?
    ensures Execute(regs, mem, i) == Write(regs, i.r0, Written(i, regs, mem))
  {
    hide Apply;
  }

  /** The first three instructions of both sequences: the bias that makes
      shifting round towards zero, and the biased operand. */
  method EmitBiased(s: Section, a: nat, n: nat) returns (bias: nat, sum: nat)
    requires s.Valid() && a < s.regCounter && n <= 32
    modifies s
    ensures Emits(s, Reg(sum), (var x := Get(RegsOf(old(s.now)), a); Some(Wrap(x + Bias(x, n)))))
    ensures s.Scoped(Reg(bias))
    ensures s.now.Running? ==> Get(s.now.regs, bias) == Bias(Get(RegsOf(old(s.now)), a), n)
  {
    hide IsTrace, RegisterJumps, Section.Valid, Step, Asr32, Lsr32, Wrap;
    var sign := Emit(s, AsrI(s.regCounter, a, 31));
    bias := Emit(s, LsrI(s.regCounter, sign, 32 - n));
    sum := Emit(s, Rrr(Add, s.regCounter, a, bias));
  }

  method OptimiseDiv(s: Section, a: nat, b: int32) returns (result: Option<nat>)
    requires s.Valid() && a < s.regCounter && b != 0
    modifies s
    ensures result.Some? <==> IsPowerOfTwo(Abs(b))
    ensures result.Some? ==> Emits(s, Reg(result.value), Evaluate(Div, Reg(a), Const(b), old(s.now)))
    ensures result.None? ==> unchanged(s)
  {
    hide IsTrace, RegisterJumps, Section.Valid, Step, Asr32, Lsr32, Wrap, Div32, Bias, IsPowerOfTwo;
    var n, found := FindShift(b);
    if !found {
      return None;
    }
    var _, sum := EmitBiased(s, a, n);
    var tmp := Emit(s, AsrI(s.regCounter, sum, n));
    if b < 0 {
      tmp := Emit(s, RSubI(s.regCounter, tmp, 0));
    }
    DivSequence(Get(RegsOf(old(s.now)), a), b, n);
    result := Some(tmp);
  }

  method OptimiseMod(s: Section, a: nat, b: int32) returns (result: Option<nat>)
    requires s.Valid() && a < s.regCounter && b != 0
    modifies s
    ensures result.Some? <==> IsPowerOfTwo(Abs(b))
    ensures result.Some? ==> Emits(s, Reg(result.value), Evaluate(Mod, Reg(a), Const(b), old(s.now)))
    ensures result.None? ==> unchanged(s)
  {
    hide IsTrace, RegisterJumps, Section.Valid, Step, Asr32, Lsr32, Wrap, Mod32, And32, Bias, IsPowerOfTwo;
    var n, found := FindShift(b);
    if !found {
      return None;
    }
    var shifted, sum := EmitBiased(s, a, n);
    var masked := Emit(s, Rri(And, s.regCounter, sum, Abs(b) - 1));
    var tmp := Emit(s, Rrr(Sub, s.regCounter, masked, shifted));
    ModSequence(Get(RegsOf(old(s.now)), a), b, n);
    result := Some(tmp);
  }

  method Materialise(s: Section, e: Exp) returns (r: nat)
    requires s.Valid() && s.Scoped(e)
    modifies s
    ensures Emits(s, Reg(r), Some(Value(e, RegsOf(old(s.now)))))
    ensures s.labelCounter == old(s.labelCounter)
  {
    hide IsTrace, RegisterJumps, Section.Valid, Step;
    match e
    case Reg(reg) =>
      r := reg;
    case Const(n) =>
      r := Emit(s, MovI(s.regCounter, n));
  }

  /** Integer division and remainder. A constant zero divisor is a compile time
      error; operands are never swapped. */
  method Divide(s: Section, op: Opcode, a1: Exp, a2: Exp) returns (r: Result<Exp>)
    requires op.Div? || op.Mod?
    requires s.Valid() && s.Scoped(a1) && s.Scoped(a2)
    modifies s
    ensures r.Failure? <==> a2 == Const(0)
    ensures r.Failure? ==> unchanged(s)
    ensures r.Success? ==> Emits(s, r.value, Evaluate(op, a1, a2, old(s.now)))
    ensures r.Success? && r.value.Const? ==>
              a1.Const? && a2.Const? && Apply(op, a1.integer, a2.integer) == Some(r.value.integer)
  {
    hide IsTrace, RegisterJumps, Section.Valid, Step;
    if a2 == Const(0) {
      return Failure;
    }
    match (a1, a2) {
      case (Const(n1), Const(n2)) =>
        return Success(Const(if op.Div? then Div32(n1, n2) else Mod32(n1, n2)));
      case (Const(n1), Reg(r2)) =>
        var r1 := Materialise(s, a1);
        var res := Emit(s, Rrr(op, s.regCounter, r1, r2));
        return Success(Reg(res));
      case (Reg(r1), Const(n2)) =>
        var quick: Option<nat>;
        if op.Div? {
          quick := OptimiseDiv(s, r1, n2);
        } else {
          quick := OptimiseMod(s, r1, n2);
        }
        if quick.Some? {
          return Success(Reg(quick.value));
        }
        if op.Div? {
          var res := Emit(s, Rri(Div, s.regCounter, r1, n2));
          return Success(Reg(res));
        }
        var r2 := Materialise(s, a2);
        var res := Emit(s, Rrr(Mod, s.regCounter, r1, r2));
        return Success(Reg(res));
      case (Reg(r1), Reg(r2)) =>
        var res := Emit(s, Rrr(op, s.regCounter, r1, r2));
        return Success(Reg(res));
    }
  }

  /** The opcode that gives the same result with its operands exchanged;
      subtraction uses the reversed instruction instead. */
  function Mirror(op: Opcode): Opcode
  {
    match op
    case Gt => Lt
    case Lt => Gt
    case Lte => Gte
    case Gte => Lte
    case _ => op
  }

  lemma MirrorCorrect(op: Opcode, x: int32, y: int32)
    requires !op.Div? && !op.Mod? && !op.Sub?
    ensures Apply(Mirror(op), x, y) == Apply(op, y, x)
  {
    AndCommutes(x, y);
    OrCommutes(x, y);
    EorCommutes(x, y);
  }

  /** Every other binary operator. A constant first operand is swapped with a
      register, so that a single immediate form suffices. */
  method Arithmetic(s: Section, op: Opcode, e1: Exp, e2: Exp) returns (e: Exp)
    requires !op.Div? && !op.Mod?
    requires s.Valid() && s.Scoped(e1) && s.Scoped(e2)
    modifies s
    ensures Emits(s, e, Evaluate(op, e1, e2, old(s.now)))
    ensures e.Const? <==> e1.Const? && e2.Const?
    ensures e.Const? ==> Apply(op, e1.integer, e2.integer) == Some(e.integer)
    ensures s.labelCounter == old(s.labelCounter)
  {
    hide IsTrace, RegisterJumps, Section.Valid, Step;
    var swapped := e1.Const? && e2.Reg?;
    var a1, a2 := e1, e2;
    if swapped {
      a1, a2 := e2, e1;
    }
    if a1.Const? {
      return Const(Apply(op, a1.integer, a2.integer).value);
    }
    var i: Instr;
    match a2 {
      case Const(n) =>
        if swapped && op.Sub? {
          i := RSubI(s.regCounter, a1.reg, n);
        } else if swapped {
          MirrorCorrect(op, Value(a1, RegsOf(s.now)), n);
          i := Rri(Mirror(op), s.regCounter, a1.reg, n);
        } else {
          i := Rri(op, s.regCounter, a1.reg, n);
        }
      case Reg(r2) =>
        i := Rrr(op, s.regCounter, a1.reg, r2);
    }
    var res := Emit(s, i);
    e := Reg(res);
  }

  method Sum(s: Section, e1: Exp, e2: Exp) returns (e: Exp)
    requires s.Valid() && s.Scoped(e1) && s.Scoped(e2)
    modifies s
    ensures var regs := RegsOf(old(s.now)); Emits(s, e, Some(Wrap(Value(e1, regs) + Value(e2, regs))))
  {
    hide IsTrace, RegisterJumps, Section.Valid, Yields, Wrap;
    e := Arithmetic(s, Add, e1, e2);
  }

  method Product(s: Section, e1: Exp, e2: Exp) returns (e: Exp)
    requires s.Valid() && s.Scoped(e1) && s.Scoped(e2)
    modifies s
    ensures var regs := RegsOf(old(s.now)); Emits(s, e, Some(Wrap(Value(e1, regs) * Value(e2, regs))))
  {
    hide IsTrace, RegisterJumps, Section.Valid, Yields, Wrap;
    e := Arithmetic(s, Mul, e1, e2);
  }

  method Binary(s: Section, op: Opcode, e1: Exp, e2: Exp) returns (r: Result<Exp>)
    requires s.Valid() && s.Scoped(e1) && s.Scoped(e2)
    modifies s
    ensures r.Failure? <==> (op.Div? || op.Mod?) && e2 == Const(0)
    ensures r.Failure? ==> unchanged(s)
    ensures r.Success? ==> Emits(s, r.value, Evaluate(op, e1, e2, old(s.now)))
    ensures r.Success? && r.value.Const? ==>
              e1.Const? && e2.Const? && Apply(op, e1.integer, e2.integer) == Some(r.value.integer)
  {
    hide IsTrace, RegisterJumps, Section.Valid, Step;
    if op.Div? || op.Mod? {
      r := Divide(s, op, e1, e2);
    } else {
      var e := Arithmetic(s, op, e1, e2);
      r := Success(e);
    }
  }

  // ----- Unary operators -----

  datatype Unary = Minus | Complement | Absolute | Sign

  function Signum(x: int32): int32 { if x < 0 then -1 else if x > 0 then 1 else 0 }

  function ApplyUnary(op: Unary, x: int32): int32
  {
    match op
    case Minus => Wrap(0 - x)
    case Complement => BitNot(x)
    case Absolute => Wrap(Abs(x))
    case Sign => Signum(x)
  }

  /** Adding the sign word and flipping by it gives the absolute value. */
  lemma AbsSequence(x: int32)
    ensures Eor32(Wrap(x + Asr32(x, 31)), Asr32(x, 31)) == Wrap(Abs(x))
  {
    hide Asr32, BitEor;
    AsrSign(x);
    EorLeaf(Wrap(x + Asr32(x, 31)));
  }

  method EmitAbs(s: Section, x: nat) returns (res: nat)
    requires s.Valid() && x < s.regCounter
    modifies s
    ensures Emits(s, Reg(res), Some(Wrap(Abs(Get(RegsOf(old(s.now)), x)))))
    ensures s.labelCounter == old(s.labelCounter)
  {
    hide IsTrace, RegisterJumps, Section.Valid, Step, Asr32, Eor32, Wrap;
    var sign := Emit(s, AsrI(s.regCounter, x, 31));
    var sum := Emit(s, Rrr(Add, s.regCounter, x, sign));
    res := Emit(s, Rrr(Eor, s.regCounter, sum, sign));
    AbsSequence(Get(RegsOf(old(s.now)), x));
  }

  lemma SignSequence(x: int32)
    ensures x < 0 ==> Signum(x) == Truth(x < 0) && Truth(x < 0) != 0
    ensures x >= 0 ==> Signum(x) == Wrap(Abs(Truth(x > 0))) && Truth(x < 0) == 0
  {}

  /** The branch of SGN for operands that are not negative overwrites res. */
  method EmitSignTail(s: Section, x: nat, res: nat)
    requires s.Valid() && x < s.regCounter && res < s.regCounter
    modifies s
    ensures s.Valid() && s.regCounter >= old(s.regCounter) && s.labelCounter == old(s.labelCounter)
    ensures old(s.ops) <= s.ops && s.arrayAccess == old(s.arrayAccess)
    ensures RegisterJumps(s.ops) == RegisterJumps(old(s.ops))
    ensures !old(s.now).Running? ==> s.now == old(s.now)
    ensures old(s.now).Running? ==>
              var before := old(s.now).regs;
              && s.now.Running?
              && Preserves(before[res := Wrap(Abs(Truth(Get(before, x) > 0)))], s.now.regs, old(s.regCounter))
  {
    hide IsTrace, RegisterJumps, Section.Valid, Wrap, Truth, Abs;
    var positive := Emit(s, Rri(Gt, s.regCounter, x, 0));
    assert s.now.Running? ==> Get(s.now.regs, positive) == Truth(Get(old(s.now).regs, x) > 0);
    var abs := EmitAbs(s, positive);
    assert s.now.Running? ==> Get(s.now.regs, abs) == Wrap(Abs(Truth(Get(old(s.now).regs, x) > 0)));
    if s.now.Running? {
      OverwritePreserves(old(s.now).regs, s.now.regs, old(s.regCounter), res, Get(s.now.regs, abs));
    }
    s.Append(Mov(res, abs));
  }

  lemma OverwritePreserves(before: Regs, after: Regs, n: nat, r: nat, v: int32)
    requires Preserves(before, after, n)
    ensures Preserves(before[r := v], after[r := v], n)
  {
    var b, a := before[r := v], after[r := v];
    forall k: nat | k < n
      ensures Get(a, k) == Get(b, k)
    {
      assert Get(after, k) == Get(before, k);
    }
  }

  method EmitSignHead(s: Section, x: nat, lessZero: nat, gteZero: nat) returns (res: nat)
    requires s.Valid() && x < s.regCounter && lessZero < s.labelCounter && gteZero < s.labelCounter
    requires lessZero != gteZero && (s.now.Jumping? ==> s.now.target != gteZero)
    modifies s
    ensures s.Valid() && s.regCounter >= old(s.regCounter) && s.labelCounter == old(s.labelCounter)
    ensures s.Scoped(Reg(res)) && res >= old(s.regCounter)
    ensures old(s.ops) <= s.ops && s.arrayAccess == old(s.arrayAccess)
    ensures RegisterJumps(s.ops) == RegisterJumps(old(s.ops))
    ensures !old(s.now).Running? ==> s.now == old(s.now)
    ensures old(s.now).Running? ==>
              var before := old(s.now).regs;
              var after := before[res := Truth(Get(before, x) < 0)];
              s.now == if Truth(Get(before, x) < 0) != 0 then Jumping(lessZero, after) else Running(after)
  {
    hide IsTrace, RegisterJumps, Section.Valid, Truth;
    res := s.NewReg();
    s.Append(Rri(Lt, res, x, 0));
    s.Append(Jmpc(Reg(res), lessZero, gteZero));
    s.Append(Label(gteZero));
  }

  method EmitSign(s: Section, x: nat) returns (res: nat)
    requires s.Valid() && x < s.regCounter
    modifies s
    ensures Emits(s, Reg(res), Some(Signum(Get(RegsOf(old(s.now)), x))))
  {
    hide IsTrace, RegisterJumps, Wrap, Signum, Truth, Abs;
    SignSequence(Get(RegsOf(s.now), x));
    var lessZero := s.NewLabel();
    var gteZero := s.NewLabel();
    res := EmitSignHead(s, x, lessZero, gteZero);
    EmitSignTail(s, x, res);
    s.Append(Label(lessZero));
  }

  method EmitUnary(s: Section, op: Unary, e: Exp) returns (r: Exp)
    requires s.Valid() && s.Scoped(e)
    modifies s
    ensures Emits(s, r, Some(ApplyUnary(op, Value(e, RegsOf(old(s.now))))))
    ensures r.Const? <==> e.Const?
    ensures e.Const? ==> r.integer == ApplyUnary(op, e.integer)
  {
    hide IsTrace, RegisterJumps, Section.Valid, Step;
    if e.Const? {
      return Const(ApplyUnary(op, e.integer));
    }
    var res: nat;
    match op {
      case Minus =>
        res := Emit(s, RSubI(s.regCounter, e.reg, 0));
      case Complement =>
        res := Emit(s, Not(s.regCounter, e.reg));
      case Absolute =>
        res := EmitAbs(s, e.reg);
      case Sign =>
        res := EmitSign(s, e.reg);
    }
    r := Reg(res);
  }

  // ----- Expression trees -----

  /** Integer expressions over variables kept at offsets from the local frame. */
  datatype Expr =
    | Literal(n: int32)
    | Variable(loc: int32)
    | UnaryExpr(uop: Unary, arg: Expr)
    | BinaryExpr(op: Opcode, left: Expr, right: Expr)

  /** The value of a tree on wrapping 32-bit integers; None if any division in
      it is by zero. */
  function Denote(e: Expr, frame: int32, mem: Memory): Option<int32>
  {
    match e
    case Literal(n) => Some(n)
    case Variable(loc) => Some(Load(mem, Wrap(frame + loc)))
    case UnaryExpr(op, a) =>
      var v := Denote(a, frame, mem);
      if v.None? then None else Some(ApplyUnary(op, v.value))
    case BinaryExpr(op, a, b) =>
      var v, w := Denote(a, frame, mem), Denote(b, frame, mem);
      if v.None? || w.None? then None else Apply(op, v.value, w.value)
  }

  // ----- What the operators mean -----

  /** The leaves: a constant, and the word a variable keeps in the local frame. */
  lemma LeafMeaning(n: int32, loc: int32, frame: int32, mem: Memory)
    ensures Denote(Literal(n), frame, mem) == Some(n)
    ensures -0x8000_0000 <= frame + loc < 0x8000_0000 && frame + loc in mem.words ==>
              Denote(Variable(loc), frame, mem) == Some(mem.words[frame + loc])
  {}

  lemma BinaryDenotes(op: Opcode, a: Expr, b: Expr, frame: int32, mem: Memory, x: int32, y: int32)
    requires Denote(a, frame, mem) == Some(x) && Denote(b, frame, mem) == Some(y)
    ensures Denote(BinaryExpr(op, a, b), frame, mem) == Apply(op, x, y)
  {
    hide Apply;
  }

  lemma UnaryDenotes(op: Unary, a: Expr, frame: int32, mem: Memory, x: int32)
    requires Denote(a, frame, mem) == Some(x)
    ensures Denote(UnaryExpr(op, a), frame, mem) == Some(ApplyUnary(op, x))
  {
    hide ApplyUnary;
  }

  /** Comparisons give -1 for true and 0 for false. */
  lemma ComparisonMeaning(a: Expr, b: Expr, frame: int32, mem: Memory, x: int32, y: int32)
    requires Denote(a, frame, mem) == Some(x) && Denote(b, frame, mem) == Some(y)
    ensures Denote(BinaryExpr(Eq, a, b), frame, mem) == Some(if x == y then -1 else 0)
    ensures Denote(BinaryExpr(Neq, a, b), frame, mem) == Some(if x == y then 0 else -1)
    ensures Denote(BinaryExpr(Lt, a, b), frame, mem) == Some(if x < y then -1 else 0)
    ensures Denote(BinaryExpr(Lte, a, b), frame, mem) == Some(if x <= y then -1 else 0)
    ensures Denote(BinaryExpr(Gt, a, b), frame, mem) == Some(if x > y then -1 else 0)
    ensures Denote(BinaryExpr(Gte, a, b), frame, mem) == Some(if x >= y then -1 else 0)
  {
    hide Denote;
    forall op | op in {Eq, Neq, Lt, Lte, Gt, Gte}
      ensures Denote(BinaryExpr(op, a, b), frame, mem) == Apply(op, x, y)
    {
      BinaryDenotes(op, a, b, frame, mem, x, y);
    }
  }

  /** Bit i of a bitwise result comes from bit i of the operands. */
  lemma BitwiseMeaning(a: Expr, b: Expr, frame: int32, mem: Memory, x: int32, y: int32, i: nat)
    requires Denote(a, frame, mem) == Some(x) && Denote(b, frame, mem) == Some(y)
    ensures var r := Denote(BinaryExpr(And, a, b), frame, mem);
            r.Some? && (Bit(r.value, i) <==> Bit(x, i) && Bit(y, i))
    ensures var r := Denote(BinaryExpr(Or, a, b), frame, mem);
            r.Some? && (Bit(r.value, i) <==> Bit(x, i) || Bit(y, i))
    ensures var r := Denote(BinaryExpr(Eor, a, b), frame, mem);
            r.Some? && (Bit(r.value, i) <==> Bit(x, i) != Bit(y, i))
    ensures var r := Denote(UnaryExpr(Complement, a), frame, mem);
            r.Some? && (Bit(r.value, i) <==> !Bit(x, i))
  {
    hide Bit, BitAnd, BitOr, BitEor;
    BitOfAnd(x, y, i);
    BitOfOr(x, y, i);
    BitOfEor(x, y, i);
    BitOfNot(x, i);
  }

  /** Words with the same low 32 bits are the same. */
  lemma BitsDecide(x: int32, y: int32)
    requires forall i: nat :: i < 32 ==> Bit(x, i) == Bit(y, i)
    ensures x == y
  {
    SameBits(x, y, 32);
    Pow2Is32();
  }

  lemma {:induction false} SameBits(x: int, y: int, n: nat)
    requires forall i: nat :: i < n ==> Bit(x, i) == Bit(y, i)
    ensures x % Pow2(n) == y % Pow2(n)
    decreases n
  {
    if n > 0 {
      forall i: nat | i < n - 1
        ensures Bit(x / 2, i) == Bit(y / 2, i)
      {
        BitHalve(x, i + 1);
        BitHalve(y, i + 1);
      }
      SameBits(x / 2, y / 2, n - 1);
      HalveMod(x, n);
      HalveMod(y, n);
      BitHalve(x, 0);
      BitHalve(y, 0);
      assert Bit(x, 0) == Bit(y, 0);
    }
  }

  /** Sums, differences, products and negation wrap. */
  lemma ArithmeticMeaning(a: Expr, b: Expr, frame: int32, mem: Memory, x: int32, y: int32)
    requires Denote(a, frame, mem) == Some(x) && Denote(b, frame, mem) == Some(y)
    ensures var r := Denote(BinaryExpr(Add, a, b), frame, mem); r.Some? && (r.value - (x + y)) % 0x1_0000_0000 == 0
    ensures var r := Denote(BinaryExpr(Sub, a, b), frame, mem); r.Some? && (r.value - (x - y)) % 0x1_0000_0000 == 0
    ensures var r := Denote(BinaryExpr(Mul, a, b), frame, mem); r.Some? && (r.value - x * y) % 0x1_0000_0000 == 0
    ensures var r := Denote(UnaryExpr(Minus, a), frame, mem); r.Some? && (r.value + x) % 0x1_0000_0000 == 0
  {
    hide Wrap, Denote;
    BinaryDenotes(Add, a, b, frame, mem, x, y);
    BinaryDenotes(Sub, a, b, frame, mem, x, y);
    BinaryDenotes(Mul, a, b, frame, mem, x, y);
    UnaryDenotes(Minus, a, frame, mem, x);
    WrapDifference(x + y);
    WrapDifference(x - y);
    ProductDifference(x, y);
    WrapDifference(0 - x);
  }

  lemma ProductDifference(x: int, y: int)
    ensures (Wrap(x * y) - x * y) % 0x1_0000_0000 == 0
  {
    WrapDifference(x * y);
  }

  lemma SignMeaning(a: Expr, frame: int32, mem: Memory, x: int32)
    requires Denote(a, frame, mem) == Some(x)
    ensures Denote(UnaryExpr(Sign, a), frame, mem) == Some(if x < 0 then -1 else if x == 0 then 0 else 1)
    ensures Denote(UnaryExpr(Absolute, a), frame, mem)
         == Some(if x == -0x8000_0000 then x else if x < 0 then -x else x)
  {}

  /** Division truncates towards zero and has no value for a zero divisor. The
      quotient wraps in one case only. */
  lemma DivisionMeaning(a: Expr, b: Expr, frame: int32, mem: Memory, x: int32, y: int32)
    requires Denote(a, frame, mem) == Some(x) && Denote(b, frame, mem) == Some(y)
    ensures var q, r := Denote(BinaryExpr(Div, a, b), frame, mem), Denote(BinaryExpr(Mod, a, b), frame, mem);
            if y == 0 then q == r == None
            else if x == -0x8000_0000 && y == -1 then q == Some(x) && r == Some(0)
            else
              && q.Some? && r.Some? && x == q.value * y + r.value
              && (if y > 0 then r.value < y && r.value + y > 0 else r.value > y && r.value + y < 0)
              && (r.value > 0 ==> x > 0) && (r.value < 0 ==> x < 0)
  {
    if y != 0 {
      hide Quot, Rem;
      QuotRem(x, y);
      QuotFits(x, y);
      DivModIdentity(x, y);
      SmallestByMinusOne(x, y);
    }
  }

  lemma SmallestByMinusOne(x: int32, y: int32)
    requires y != 0
    ensures x == -0x8000_0000 && y == -1 ==> Div32(x, y) == x && Mod32(x, y) == 0
  {}

  /** A tree has the value v, or none, whatever the variables hold. */
  ghost predicate Always(e: Expr, v: Option<int32>)
  {
    forall frame: int32, mem :: Denote(e, frame, mem) == v
  }

  lemma AlwaysLiteral(n: int32)
    ensures Always(Literal(n), Some(n))
  {}

  lemma AlwaysAt(e: Expr, v: Option<int32>, frame: int32, mem: Memory)
    requires Always(e, v)
    ensures Denote(e, frame, mem) == v
  {}

  lemma AlwaysUnary(op: Unary, a: Expr, v: Option<int32>)
    requires Always(a, v)
    ensures Always(UnaryExpr(op, a), if v.None? then None else Some(ApplyUnary(op, v.value)))
  {
    hide ApplyUnary;
    forall frame: int32, mem
      ensures Denote(UnaryExpr(op, a), frame, mem) == if v.None? then None else Some(ApplyUnary(op, v.value))
    {
      AlwaysAt(a, v, frame, mem);
    }
  }

  lemma AlwaysBinary(op: Opcode, a: Expr, b: Expr, v: int32, w: int32)
    requires Always(a, Some(v)) && Always(b, Some(w))
    ensures Always(BinaryExpr(op, a, b), Apply(op, v, w))
  {
    hide Apply;
    forall frame: int32, mem
      ensures Denote(BinaryExpr(op, a, b), frame, mem) == Apply(op, v, w)
    {
      AlwaysAt(a, Some(v), frame, mem);
      AlwaysAt(b, Some(w), frame, mem);
    }
  }

  /** A tree fails everywhere if a part of it does, or if it divides by zero everywhere. */
  lemma AlwaysFails(op: Opcode, a: Expr, b: Expr)
    requires Always(a, None) || Always(b, None) || ((op.Div? || op.Mod?) && Always(b, Some(0)))
    ensures Always(BinaryExpr(op, a, b), None)
  {
    forall frame: int32, mem
      ensures Denote(BinaryExpr(op, a, b), frame, mem) == None
    {
      if Always(a, None) {
        AlwaysAt(a, None, frame, mem);
      } else if Always(b, None) {
        AlwaysAt(b, None, frame, mem);
      } else {
        AlwaysAt(b, Some(0), frame, mem);
      }
    }
  }

  /** Lowering preserves meaning: whatever the registers and memory, running the
      emitted code gives the value of the tree, or faults exactly when the tree
      divides by zero. Lowering fails only for a tree that always divides by
      zero, and folds only a tree whose value is the same everywhere. */
  method Lower(s: Section, e: Expr) returns (r: Result<Exp>)
    requires s.Valid() && REG_LOCAL < s.regCounter
    modifies s
    ensures r.Success? ==> Emits(s, r.value, Denote(e, Get(RegsOf(old(s.now)), REG_LOCAL), s.mem))
    ensures r.Success? && r.value.Const? ==> Always(e, Some(r.value.integer))
    ensures r.Failure? ==> Always(e, None)
    decreases e
  {
    hide IsTrace, RegisterJumps, Section.Valid, Step, Wrap, Apply, ApplyUnary, Always;
    match e
    case Literal(n) =>
      AlwaysLiteral(n);
      r := Success(Const(n));
    case Variable(loc) =>
      var res := Emit(s, LoadO(s.regCounter, REG_LOCAL, loc));
      r := Success(Reg(res));
    case UnaryExpr(op, a) =>
      var x := Lower(s, a);
      if x.Failure? {
        AlwaysUnary(op, a, None);
        return Failure;
      }
      var res := EmitUnary(s, op, x.value);
      if res.Const? {
        AlwaysUnary(op, a, Some(x.value.integer));
      }
      r := Success(res);
    case BinaryExpr(op, a, b) =>
      var x := Lower(s, a);
      if x.Failure? {
        AlwaysFails(op, a, b);
        return Failure;
      }
      var y := Lower(s, b);
      if y.Failure? {
        AlwaysFails(op, a, b);
        return Failure;
      }
      r := Binary(s, op, x.value, y.value);
      if r.Failure? {
        AlwaysFails(op, a, b);
      } else if r.value.Const? {
        AlwaysBinary(op, a, b, x.value.integer, y.value.integer);
      }
  }
}
