/** The part of the intermediate representation that the integer lowering and
    the array code emit, its meaning, and the section that instructions are
    appended to.

    All the jumps modelled here go forward, so a section is executed from left
    to right: while a jump is pending, instructions are skipped until its label
    is reached. */
module IR {
  import opened Int32
  import opened Wrappers

  datatype Opcode =
    | Add | Sub | Mul | Div | Mod | And | Or | Eor
    | Eq | Neq | Gt | Lte | Lt | Gte

  /** An operand of an expression: a compile time constant or a register. */
  datatype Exp = Const(integer: int32) | Reg(reg: nat)

  datatype Instr =
    | Rrr(op: Opcode, r0: nat, r1: nat, r2: nat)    // addi32, subi32, ...
    | Rri(op: Opcode, r0: nat, r1: nat, imm: int32) // addii32, subii32, ...
    | RSubI(r0: nat, r1: nat, imm: int32)
    | Not(r0: nat, r1: nat)
    | Mov(r0: nat, r1: nat)
    | MovI(r0: nat, imm: int32)
    | LslI(r0: nat, r1: nat, count: nat)
    | LsrI(r0: nat, r1: nat, count: nat)
    | AsrI(r0: nat, r1: nat, count: nat)
    | LoadO(r0: nat, r1: nat, off: int32)
    | Jmpc(cond: Exp, ifTrue: nat, ifFalse: nat)    // the operand is read as a register
    | Label(id: nat)

  type Regs = map<nat, int32>

  /** The words of memory, and what the machine finds past its last register. */
  datatype Memory = Memory(words: map<int32, int32>, beyond: int32)

  /** Where execution stands after a prefix of a section. Faulted is a division
      by zero, after which the section's error handler takes over. */
  datatype Outcome =
    | Running(regs: Regs)
    | Jumping(target: nat, regs: Regs)
    | Faulted

  function Get(regs: Regs, r: nat): int32 { if r in regs then regs[r] else 0 }

  function Load(mem: Memory, address: int32): int32 { if address in mem.words then mem.words[address] else 0 }

  function Value(e: Exp, regs: Regs): int32
  {
    match e
    case Const(n) => n
    case Reg(r) => Get(regs, r)
  }

  /** What a jump tests. It takes a register: an operand that holds a constant is
      read as the number of a register too, and a negative constant is the number
      of none. */
  function Tested(cond: Exp, regs: Regs, mem: Memory): int32
  {
    match cond
    case Const(n) => if n < 0 then mem.beyond else Get(regs, n)
    case Reg(r) => Get(regs, r)
  }

  /** The meaning of a binary operator on 32-bit words; None is division by zero. */
  function Apply(op: Opcode, a: int32, b: int32): Option<int32>
  {
    match op
    case Add => Some(Wrap(a + b))
    case Sub => Some(Wrap(a - b))
    case Mul => Some(Wrap(a * b))
    case Div => if b == 0 then None else Some(Div32(a, b))
    case Mod => if b == 0 then None else Some(Mod32(a, b))
    case And => Some(And32(a, b))
    case Or => Some(Or32(a, b))
    case Eor => Some(Eor32(a, b))
    case Eq => Some(Truth(a == b))
    case Neq => Some(Truth(a != b))
    case Gt => Some(Truth(a > b))
    case Lte => Some(Truth(a <= b))
    case Lt => Some(Truth(a < b))
    case Gte => Some(Truth(a >= b))
  }

  function Write(regs: Regs, r: nat, v: Option<int32>): Outcome
  {
    if v.Some? then Running(regs[r := v.value]) else Faulted
  }

  function Execute(regs: Regs, mem: Memory, i: Instr): Outcome
  {
    match i
    case Rrr(op, r0, r1, r2) => Write(regs, r0, Apply(op, Get(regs, r1), Get(regs, r2)))
    case Rri(op, r0, r1, imm) => Write(regs, r0, Apply(op, Get(regs, r1), imm))
    case RSubI(r0, r1, imm) => Running(regs[r0 := Wrap(imm - Get(regs, r1))])
    case Not(r0, r1) => Running(regs[r0 := BitNot(Get(regs, r1))])
    case Mov(r0, r1) => Running(regs[r0 := Get(regs, r1)])
    case MovI(r0, imm) => Running(regs[r0 := imm])
    case LslI(r0, r1, count) => Running(regs[r0 := Lsl32(Get(regs, r1), count)])
    case LsrI(r0, r1, count) => Running(regs[r0 := Lsr32(Get(regs, r1), count)])
    case AsrI(r0, r1, count) => Running(regs[r0 := Asr32(Get(regs, r1), count)])
    case LoadO(r0, r1, off) => Running(regs[r0 := Load(mem, Wrap(Get(regs, r1) + off))])
    case Jmpc(cond, l1, l2) => Jumping(if Tested(cond, regs, mem) != 0 then l1 else l2, regs)
    case Label(_) => Running(regs)
  }

  /** The instructions that work on one register, in terms of its value x: shifts
      multiply or divide by a power of two, rounding down, and the logical shift
      takes the word as unsigned. */
  lemma InstructionMeaning(regs: Regs, mem: Memory, r0: nat, r1: nat, imm: int32, count: nat)
    returns (x: int32, lsl: int32, lsr: int32, asr: int32, rsub: int32, not: int32)
    requires 0 < count
    ensures x == Get(regs, r1)
    ensures Execute(regs, mem, LslI(r0, r1, count)) == Running(regs[r0 := lsl])
    ensures (lsl - x * Pow2(count)) % 0x1_0000_0000 == 0
    ensures Execute(regs, mem, LsrI(r0, r1, count)) == Running(regs[r0 := lsr])
    ensures lsr == (if x < 0 then x + 0x1_0000_0000 else x) / Pow2(count)
    ensures Execute(regs, mem, AsrI(r0, r1, count)) == Running(regs[r0 := asr])
    ensures asr * Pow2(count) <= x < (asr + 1) * Pow2(count)
    ensures Execute(regs, mem, RSubI(r0, r1, imm)) == Running(regs[r0 := rsub])
    ensures (rsub - (imm - x)) % 0x1_0000_0000 == 0
    ensures Execute(regs, mem, Not(r0, r1)) == Running(regs[r0 := not]) && not + x == -1
  {
    hide Wrap, Lsl32, Lsr32, Asr32, Pow2;
    x := Get(regs, r1);
    lsl, lsr, asr, rsub, not := Lsl32(x, count), Lsr32(x, count), Asr32(x, count), Wrap(imm - x), BitNot(x);
    ShiftMeaning(x, count);
    WrapDifference(imm - x);
  }

  /** Moves and loads: a load adds its offset to the register modulo 2^32. */
  lemma MoveMeaning(regs: Regs, mem: Memory, r0: nat, r1: nat, imm: int32) returns (address: int32)
    ensures (address - (Get(regs, r1) + imm)) % 0x1_0000_0000 == 0
    ensures Execute(regs, mem, LoadO(r0, r1, imm)) ==
            Running(regs[r0 := if address in mem.words then mem.words[address] else 0])
    ensures Execute(regs, mem, Mov(r0, r1)) == Running(regs[r0 := Get(regs, r1)])
    ensures Execute(regs, mem, MovI(r0, imm)) == Running(regs[r0 := imm])
  {
    hide Wrap;
    address := Wrap(Get(regs, r1) + imm);
    WrapDifference(Get(regs, r1) + imm);
  }

  lemma ShiftMeaning(x: int32, count: nat)
    requires 0 < count
    ensures (Lsl32(x, count) - x * Pow2(count)) % 0x1_0000_0000 == 0
    ensures Lsr32(x, count) == (if x < 0 then x + 0x1_0000_0000 else x) / Pow2(count)
    ensures Asr32(x, count) * Pow2(count) <= x < (Asr32(x, count) + 1) * Pow2(count)
  {
    var p := Pow2(count);
    hide Wrap;
    WrapDifference(x * p);
    HalfAtMost(Unsigned(x), count);
    FloorOf(x, p);
  }

  lemma HalfAtMost(u: int, count: nat)
    requires 0 <= u < 0x1_0000_0000 && 0 < count
    ensures 0 <= u / Pow2(count) < 0x8000_0000
  {
    HalveMod(u, count);
    AsrBound(u / 2, count - 1);
  }

  lemma FloorOf(x: int, p: int)
    requires p > 0
    ensures (x / p) * p <= x < (x / p + 1) * p
  {
    assert x == p * (x / p) + x % p;
  }

  function Step(o: Outcome, mem: Memory, i: Instr): Outcome
  {
    match o
    case Running(regs) => Execute(regs, mem, i)
    case Jumping(target, regs) => if i == Label(target) then Running(regs) else o
    case Faulted => Faulted
  }

  function Run(ops: seq<Instr>, mem: Memory, regs: Regs): Outcome
  {
    if ops == [] then Running(regs)
    else Step(Run(ops[..|ops| - 1], mem, regs), mem, ops[|ops| - 1])
  }

  lemma RunOneMore(ops: seq<Instr>, i: Instr, mem: Memory, regs: Regs)
    ensures Run(ops + [i], mem, regs) == Step(Run(ops, mem, regs), mem, i)
  {
    assert (ops + [i])[..|ops|] == ops;
  }

  /** A jump on a register goes to its first label if the register is not zero and to
      the second one if it is. Nothing before that label has an effect, and from the
      label on the code runs again. */
  lemma JumpMeaning(ops: seq<Instr>, r: nat, ifTrue: nat, ifFalse: nat, skipped: seq<Instr>, mem: Memory, regs: Regs)
    requires Run(ops, mem, regs).Running?
    ensures var before := Run(ops, mem, regs).regs;
            var target := if Get(before, r) == 0 then ifFalse else ifTrue;
            (forall k :: 0 <= k < |skipped| ==> skipped[k] != Label(target)) ==>
              Run(ops + [Jmpc(Reg(r), ifTrue, ifFalse)] + skipped + [Label(target)], mem, regs) == Running(before)
  {
    var before := Run(ops, mem, regs).regs;
    var target := if Get(before, r) == 0 then ifFalse else ifTrue;
    var jump := ops + [Jmpc(Reg(r), ifTrue, ifFalse)];
    RunOneMore(ops, Jmpc(Reg(r), ifTrue, ifFalse), mem, regs);
    if forall k :: 0 <= k < |skipped| ==> skipped[k] != Label(target) {
      SkipsTo(jump, skipped, target, mem, regs);
      RunOneMore(jump + skipped, Label(target), mem, regs);
    }
  }

  lemma {:induction false} SkipsTo(ops: seq<Instr>, skipped: seq<Instr>, target: nat, mem: Memory, regs: Regs)
    requires Run(ops, mem, regs).Jumping? && Run(ops, mem, regs).target == target
    requires forall k :: 0 <= k < |skipped| ==> skipped[k] != Label(target)
    ensures Run(ops + skipped, mem, regs) == Run(ops, mem, regs)
    decreases |skipped|
  {
    if skipped == [] {
      assert ops + skipped == ops;
    } else {
      var n := |skipped| - 1;
      SkipsTo(ops, skipped[..n], target, mem, regs);
      assert ops + skipped == ops + skipped[..n] + [skipped[n]];
      RunOneMore(ops + skipped[..n], skipped[n], mem, regs);
    }
  }

  /** Registers below n keep their values. */
  ghost predicate Preserves(before: Regs, after: Regs, n: nat)
  {
    forall r: nat :: r < n ==> Get(after, r) == Get(before, r)
  }

  /** Running on from before, the section reaches after with the value v in e,
      or faults when there is no value. Code that is jumped over has no effect. */
  ghost predicate Yields(before: Outcome, after: Outcome, n: nat, e: Exp, v: Option<int32>)
  {
    if before.Running? && v.Some? then
      after.Running? && Preserves(before.regs, after.regs, n) && Value(e, after.regs) == v.value
    else if before.Running? then after == Faulted
    else after == before
  }

  predicate JumpsOnRegister(i: Instr) { i.Jmpc? ==> i.cond.Reg? }

  /** No jump has been given a constant to test. */
  predicate RegisterJumps(ops: seq<Instr>) { forall k :: 0 <= k < |ops| ==> JumpsOnRegister(ops[k]) }

  /** The outcomes of a section after each of its prefixes. */
  ghost predicate IsTrace(trace: seq<Outcome>, ops: seq<Instr>, mem: Memory, start: Regs)
  {
    && |trace| == |ops| + 1
    && trace[0] == Running(start)
    && forall k :: 0 <= k < |ops| ==> trace[k + 1] == Step(trace[k], mem, ops[k])
  }

  lemma {:induction false} TraceIsRun(trace: seq<Outcome>, ops: seq<Instr>, mem: Memory, start: Regs)
    requires IsTrace(trace, ops, mem, start)
    ensures trace[|ops|] == Run(ops, mem, start)
    decreases |ops|
  {
    if ops != [] {
      var n := |ops| - 1;
      TraceIsRun(trace[..n + 1], ops[..n], mem, start);
      assert trace[n + 1] == Step(trace[n], mem, ops[n]);
    }
  }

  lemma AppendJumps(ops: seq<Instr>, i: Instr)
    ensures RegisterJumps(ops + [i]) <==> RegisterJumps(ops) && JumpsOnRegister(i)
  {
    assert (ops + [i])[|ops|] == i;
    assert forall k :: 0 <= k < |ops| ==> (ops + [i])[k] == ops[k];
  }

  /** A section of code under construction. Nothing is assumed about the memory
      and the registers it will be started with. */
  class Section {
    var ops: seq<Instr>
    var regCounter: nat
    var labelCounter: nat
    var arrayAccess: Option<nat>  // the label of the code that reports bad subscripts
    ghost const mem: Memory
    ghost const start: Regs
    ghost var trace: seq<Outcome>
    ghost var now: Outcome  // the outcome of running everything emitted so far

    ghost predicate Valid()
      reads this
    {
      && IsTrace(trace, ops, mem, start)
      && now == trace[|ops|]
      && 0 < regCounter
      && (now.Jumping? ==> now.target < labelCounter)
      && (arrayAccess.Some? ==> arrayAccess.value < labelCounter)
    }

    ghost predicate Scoped(e: Exp)
      reads this
    {
      e.Reg? ==> e.reg < regCounter
    }

    /** The first registers are reserved, so there is always a register 0. */
    constructor (firstReg: nat, ghost mem: Memory, ghost start: Regs)
      requires 0 < firstReg
      ensures Valid() && ops == [] && this.mem == mem && this.start == start
      ensures regCounter == firstReg && labelCounter == 0 && arrayAccess == None
      ensures now == Running(start)
    {
      ops := [];
      regCounter, labelCounter, arrayAccess := firstReg, 0, None;
      this.mem, this.start := mem, start;
      trace, now := [Running(start)], Running(start);
    }

    method Append(i: Instr)
      requires Valid()
      requires i.Jmpc? ==> i.ifTrue < labelCounter && i.ifFalse < labelCounter
      modifies this`ops, this`trace, this`now
      ensures Valid()
      ensures ops == old(ops) + [i]
      ensures now == Step(old(now), mem, i)
      ensures RegisterJumps(ops) <==> RegisterJumps(old(ops)) && JumpsOnRegister(i)
    {
      AppendJumps(ops, i);
      ops := ops + [i];
      now := Step(now, mem, i);
      trace := trace + [now];
    }

    method NewReg() returns (r: nat)
      requires Valid()
      modifies this`regCounter
      ensures Valid() && r == old(regCounter) && regCounter == r + 1
    {
      r := regCounter;
      regCounter := regCounter + 1;
    }

    method NewLabel() returns (l: nat)
      requires Valid()
      modifies this`labelCounter
      ensures Valid() && l == old(labelCounter) && labelCounter == l + 1
    {
      l := labelCounter;
      labelCounter := labelCounter + 1;
    }

    /** The label that failed subscript checks jump to, created on first use. Its
        code is generated once, at the end of the section. */
    method ErrorLabel() returns (l: nat)
      requires Valid()
      modifies this`labelCounter, this`arrayAccess
      ensures Valid() && arrayAccess == Some(l)
      ensures old(arrayAccess).Some? ==> arrayAccess == old(arrayAccess)
      ensures labelCounter >= old(labelCounter)
    {
      if arrayAccess.None? {
        var created := NewLabel();
        arrayAccess := Some(created);
      }
      l := arrayAccess.value;
    }

    /** The recorded outcome of a section is the outcome of running its code. */
    lemma NowIsRun()
      requires Valid()
      ensures now == Run(ops, mem, start)
    {
      TraceIsRun(trace, ops, mem, start);
    }
  }
}
