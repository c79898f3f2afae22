/** When a rule matches, said about the window and the rule position by position,
    without the list of obligations the matcher works through. */
module RulePositions {
  import opened RuleMatcher

  /** Operand j of a pattern floats in a space of names. Integer registers, real
      registers and labels are apart; label operations name labels as well. */
  predicate FloatsAt(info: Table, p: Pattern, j: nat, k: Sort)
    requires KnownPattern(info, p)
  {
    && p.InstrMatch? && j < |info[p.code]| && p.modes[j] == Floating
    && match k
       case Regs => info[p.code][j] == IntRegister
       case Fregs => info[p.code][j] == FloatRegister
       case Labels => info[p.code][j] == LabelOperand
  }

  /** A pattern agrees with an operation: kind, code or sort of call, and fixed
      operands. Labels cannot be fixed, and only registers and labels can float. */
  predicate SameKind(info: Table, op: Op, p: Pattern)
    requires KnownOp(info, op) && KnownPattern(info, p)
  {
    match p
    case InstrMatch(code, operands, modes) =>
      && op.Instr? && op.code == code
      && (forall j :: 0 <= j < |info[code]| && modes[j] == Fixed ==>
            info[code][j] != LabelOperand && op.operands[j] == operands[j])
      && (forall j :: 0 <= j < |info[code]| && modes[j] == Floating ==>
            info[code][j] == IntRegister || info[code][j] == FloatRegister || info[code][j] == LabelOperand)
    case LabelMatch(id) => op.Label?
    case CallMatch(sort) => op.Call? && op.sort == sort
    case SysCallMatch => op.SysCall?
  }

  /** In one operation a floating name stands for an actual register or label. */
  ghost predicate StandsIn(info: Table, op: Op, p: Pattern, k: Sort, name: int, actual: int)
    requires KnownOp(info, op) && KnownPattern(info, p)
  {
    || (k == Labels && p.LabelMatch? && op.Label? && p.id == name && op.id == actual)
    || (op.Instr? && p.InstrMatch? && op.code == p.code
        && exists j: nat :: FloatsAt(info, p, j, k) && p.operands[j] == name && op.operands[j] == actual)
  }

  /** It does somewhere in the first n operations of the window. */
  ghost predicate Stands(info: Table, ops: seq<Op>, rule: seq<Pattern>, pc: nat, n: nat, k: Sort, name: int, actual: int)
    requires n <= |rule| && pc + n <= |ops| && Known(info, ops, rule)
  {
    exists i: nat :: i < n && StandsIn(info, ops[pc + i], rule[i], k, name, actual)
  }

  /** The names of a space that the first n patterns of a rule use. */
  ghost function NamesUsed(info: Table, rule: seq<Pattern>, n: nat, k: Sort): set<int>
    requires n <= |rule| && forall i :: 0 <= i < |rule| ==> KnownPattern(info, rule[i])
  {
    (set i, j | 0 <= i < n && rule[i].InstrMatch? && 0 <= j < |rule[i].operands| && FloatsAt(info, rule[i], j, k)
       :: rule[i].operands[j])
    + (set i | 0 <= i < n && rule[i].LabelMatch? && k == Labels :: rule[i].id)
  }

  /** The first n patterns agree with the window, and one name stands for one thing. */
  ghost predicate Agrees(info: Table, ops: seq<Op>, rule: seq<Pattern>, pc: nat, n: nat)
    requires n <= |rule| && pc + n <= |ops| && Known(info, ops, rule)
  {
    && (forall i :: 0 <= i < n ==> SameKind(info, ops[pc + i], rule[i]))
    && forall k, name, a, b ::
         Stands(info, ops, rule, pc, n, k, name, a) && Stands(info, ops, rule, pc, n, k, name, b) ==> a == b
  }

  // ----- Obligations and positions -----

  function Failing(): Obligation { Holds(false) }

  predicate Clash(o: Obligation, p: Obligation)
  {
    o.Bind? && p.Bind? && o.sort == p.sort && o.name == p.name && o.actual != p.actual
  }

  ghost predicate Consistent(obs: seq<Obligation>)
  {
    && Failing() !in obs && Unsupported !in obs
    && forall o, p :: o in obs && p in obs ==> !Clash(o, p)
  }

  /** What the first obligation about a name asks for. */
  function ActualOf(obs: seq<Obligation>, k: Sort, name: int): int
  {
    if obs == [] then 0
    else if obs[0].Bind? && obs[0].sort == k && obs[0].name == name then obs[0].actual
    else ActualOf(obs[1..], k, name)
  }

  lemma {:induction false} ActualOfFound(obs: seq<Obligation>, i: nat)
    requires Consistent(obs) && i < |obs| && obs[i].Bind?
    ensures ActualOf(obs, obs[i].sort, obs[i].name) == obs[i].actual
  {
    assert !Clash(obs[0], obs[i]);
    if i > 0 && !(obs[0].Bind? && obs[0].sort == obs[i].sort && obs[0].name == obs[i].name) {
      ActualOfFound(obs[1..], i - 1);
    }
  }

  /** One assignment meets the obligations exactly when none fails by itself and no
      two clash. */
  lemma SatisfiableIff(obs: seq<Obligation>)
    ensures Satisfiable(obs) <==> Consistent(obs)
  {
    if Consistent(obs) {
      var a: Assignment := (k: Sort, name: int) => ActualOf(obs, k, name);
      forall i | 0 <= i < |obs|
        ensures Meets(a, obs[i])
      {
        if obs[i].Bind? { ActualOfFound(obs, i); }
      }
      assert MeetsAll(a, obs);
    } else if Satisfiable(obs) {
      var a: Assignment :| MeetsAll(a, obs);
      assert forall o :: o in obs ==> Meets(a, o);
    }
  }

  /** The obligations of the operations of a window, each kept in a set of its own. */
  lemma {:induction false} WindowMembers(info: Table, ops: seq<Op>, rule: seq<Pattern>, pc: nat, n: nat, o: Obligation)
    requires n <= |rule| && pc + n <= |ops| && Known(info, ops, rule)
    ensures o in WindowObligations(info, ops, rule, pc, n) <==>
            exists i: nat :: i < n && o in OpObligations(info, ops[pc + i], rule[i])
  {
    hide OpObligations, KnownOp, KnownPattern;
    if n > 0 {
      var before, last := WindowObligations(info, ops, rule, pc, n - 1), OpObligations(info, ops[pc + n - 1], rule[n - 1]);
      WindowMembers(info, ops, rule, pc, n - 1, o);
      assert o in before + last <==> o in before || o in last;
      assert o in last ==> o in OpObligations(info, ops[pc + (n - 1)], rule[n - 1]);
    }
  }

  lemma OperandAt(info: Table, op: Op, p: Pattern, j: nat)
    requires KnownOp(info, op) && KnownPattern(info, p) && p.InstrMatch? && op.Instr? && op.code == p.code
    requires j < |info[p.code]|
    ensures j < |OpObligations(info, op, p)|
    ensures OpObligations(info, op, p)[j] == OperandObligation(info[p.code][j], p.modes[j], op.operands[j], p.operands[j])
    ensures OpObligations(info, op, p)[j] in OpObligations(info, op, p)
  {}

  /** No obligation of an operation fails by itself exactly if the pattern agrees. */
  lemma KindIff(info: Table, op: Op, p: Pattern)
    requires KnownOp(info, op) && KnownPattern(info, p)
    ensures var obs := OpObligations(info, op, p);
            SameKind(info, op, p) <==> Failing() !in obs && Unsupported !in obs
  {
    if p.InstrMatch? && op.Instr? && op.code == p.code {
      forall j: nat | j < |info[p.code]|
        ensures j < |OpObligations(info, op, p)|
        ensures OpObligations(info, op, p)[j]
             == OperandObligation(info[p.code][j], p.modes[j], op.operands[j], p.operands[j])
        ensures OpObligations(info, op, p)[j] in OpObligations(info, op, p)
      {
        OperandAt(info, op, p, j);
      }
    }
  }

  lemma BindIff(info: Table, op: Op, p: Pattern, k: Sort, name: int, actual: int)
    requires KnownOp(info, op) && KnownPattern(info, p)
    ensures Bind(k, name, actual) in OpObligations(info, op, p) <==> StandsIn(info, op, p, k, name, actual)
  {
    if p.InstrMatch? && op.Instr? && op.code == p.code {
      var obs := OpObligations(info, op, p);
      if Bind(k, name, actual) in obs {
        var j: nat :| j < |obs| && obs[j] == Bind(k, name, actual);
        OperandAt(info, op, p, j);
        assert FloatsAt(info, p, j, k);
      }
      if StandsIn(info, op, p, k, name, actual) {
        var j: nat :| FloatsAt(info, p, j, k) && p.operands[j] == name && op.operands[j] == actual;
        OperandAt(info, op, p, j);
      }
    }
  }

  lemma BindStands(info: Table, ops: seq<Op>, rule: seq<Pattern>, pc: nat, n: nat, k: Sort, name: int, actual: int)
    requires n <= |rule| && pc + n <= |ops| && Known(info, ops, rule)
    ensures Bind(k, name, actual) in WindowObligations(info, ops, rule, pc, n) <==>
            Stands(info, ops, rule, pc, n, k, name, actual)
  {
    hide OpObligations, StandsIn, WindowObligations, KnownOp, KnownPattern;
    WindowMembers(info, ops, rule, pc, n, Bind(k, name, actual));
    forall i: nat | i < n
      ensures KnownOp(info, ops[pc + i]) && KnownPattern(info, rule[i])
      ensures Bind(k, name, actual) in OpObligations(info, ops[pc + i], rule[i]) <==>
              StandsIn(info, ops[pc + i], rule[i], k, name, actual)
    {
      BindIff(info, ops[pc + i], rule[i], k, name, actual);
    }
  }

  /** The obligations of a window can be met exactly when the window agrees. */
  lemma AgreesIff(info: Table, ops: seq<Op>, rule: seq<Pattern>, pc: nat, n: nat)
    requires n <= |rule| && pc + n <= |ops| && Known(info, ops, rule)
    ensures Satisfiable(WindowObligations(info, ops, rule, pc, n)) <==> Agrees(info, ops, rule, pc, n)
  {
    hide OpObligations, Stands, WindowObligations, KnownOp, KnownPattern, SameKind, Satisfiable;
    var obs := WindowObligations(info, ops, rule, pc, n);
    SatisfiableIff(obs);
    WindowMembers(info, ops, rule, pc, n, Failing());
    WindowMembers(info, ops, rule, pc, n, Unsupported);
    forall i: nat | i < n
      ensures KnownOp(info, ops[pc + i]) && KnownPattern(info, rule[i])
      ensures var o := OpObligations(info, ops[pc + i], rule[i]);
              SameKind(info, ops[pc + i], rule[i]) <==> Failing() !in o && Unsupported !in o
    {
      KindIff(info, ops[pc + i], rule[i]);
    }
    forall k: Sort, name: int, a: int
      ensures Bind(k, name, a) in obs <==> Stands(info, ops, rule, pc, n, k, name, a)
    {
      BindStands(info, ops, rule, pc, n, k, name, a);
    }
    ClashFree(info, ops, rule, pc, n, obs);
  }

  lemma ClashFree(info: Table, ops: seq<Op>, rule: seq<Pattern>, pc: nat, n: nat, obs: seq<Obligation>)
    requires n <= |rule| && pc + n <= |ops| && Known(info, ops, rule)
    requires forall k: Sort, name: int, a: int ::
               Bind(k, name, a) in obs <==> Stands(info, ops, rule, pc, n, k, name, a)
    ensures (forall o, p :: o in obs && p in obs ==> !Clash(o, p)) <==>
            forall k, name, a, b ::
              Stands(info, ops, rule, pc, n, k, name, a) && Stands(info, ops, rule, pc, n, k, name, b) ==> a == b
  {
    hide Stands, Known;
    if forall o, p :: o in obs && p in obs ==> !Clash(o, p) {
      forall k, name, a, b | Stands(info, ops, rule, pc, n, k, name, a) && Stands(info, ops, rule, pc, n, k, name, b)
        ensures a == b
      {
        assert !Clash(Bind(k, name, a), Bind(k, name, b));
      }
    } else {
      var o, p :| o in obs && p in obs && Clash(o, p);
      assert o == Bind(o.sort, o.name, o.actual) && p == Bind(p.sort, p.name, p.actual);
    }
  }

  /** The names the obligations bind are the names the patterns use. */
  lemma NamesIff(info: Table, ops: seq<Op>, rule: seq<Pattern>, pc: nat, n: nat, k: Sort)
    requires n <= |rule| && pc + n <= |ops| && Known(info, ops, rule) && Agrees(info, ops, rule, pc, n)
    ensures NamesOf(WindowObligations(info, ops, rule, pc, n), k) == NamesUsed(info, rule, n, k)
  {
    var obs := WindowObligations(info, ops, rule, pc, n);
    hide WindowObligations, Agrees;
    forall name
      ensures name in NamesOf(obs, k) <==> name in NamesUsed(info, rule, n, k)
    {
      if name in NamesOf(obs, k) {
        var q :| 0 <= q < |obs| && obs[q].Bind? && obs[q].sort == k && obs[q].name == name;
        assert obs[q] == Bind(k, name, obs[q].actual) && obs[q] in obs;
        BindStands(info, ops, rule, pc, n, k, name, obs[q].actual);
        StandsUsed(info, ops, rule, pc, n, k, name, obs[q].actual);
      }
      if name in NamesUsed(info, rule, n, k) {
        var actual := UsedStands(info, ops, rule, pc, n, k, name);
        BindStands(info, ops, rule, pc, n, k, name, actual);
        var q :| 0 <= q < |obs| && obs[q] == Bind(k, name, actual);
      }
    }
  }

  lemma StandsUsed(info: Table, ops: seq<Op>, rule: seq<Pattern>, pc: nat, n: nat, k: Sort, name: int, actual: int)
    requires n <= |rule| && pc + n <= |ops| && Known(info, ops, rule)
    requires Stands(info, ops, rule, pc, n, k, name, actual)
    ensures name in NamesUsed(info, rule, n, k)
  {}

  lemma UsedStands(info: Table, ops: seq<Op>, rule: seq<Pattern>, pc: nat, n: nat, k: Sort, name: int) returns (actual: int)
    requires n <= |rule| && pc + n <= |ops| && Known(info, ops, rule) && Agrees(info, ops, rule, pc, n)
    requires name in NamesUsed(info, rule, n, k)
    ensures Stands(info, ops, rule, pc, n, k, name, actual)
  {
    if i, j :| 0 <= i < n && rule[i].InstrMatch? && 0 <= j < |rule[i].operands|
               && FloatsAt(info, rule[i], j, k) && rule[i].operands[j] == name {
      assert SameKind(info, ops[pc + i], rule[i]);
      actual := ops[pc + i].operands[j];
      assert StandsIn(info, ops[pc + i], rule[i], k, name, actual);
    } else {
      var i :| 0 <= i < n && rule[i].LabelMatch? && k == Labels && rule[i].id == name;
      assert SameKind(info, ops[pc + i], rule[i]);
      actual := ops[pc + i].id;
      assert StandsIn(info, ops[pc + i], rule[i], k, name, actual);
    }
  }

  /** A rule matches exactly when its window lies in the section, every pattern agrees
      with its operation, any two places of one name in one space have the same actual
      value, and there are at most 16 names of a space. */
  lemma MatchByPositions(info: Table, ops: seq<Op>, rule: seq<Pattern>, pc: nat, v: Verdict)
    requires Known(info, ops, rule) && pc <= |ops| && RuleVerdict(info, ops, rule, pc, v)
    ensures v == Match <==>
            && pc + |rule| <= |ops|
            && (forall i :: 0 <= i < |rule| ==> SameKind(info, ops[pc + i], rule[i]))
            && (forall k, name, a, b ::
                  Stands(info, ops, rule, pc, |rule|, k, name, a) && Stands(info, ops, rule, pc, |rule|, k, name, b) ==> a == b)
            && (forall k :: |NamesUsed(info, rule, |rule|, k)| <= 16)
  {
    hide Stands, WindowObligations, SameKind, Satisfiable, NamesOf, NamesUsed, Stuck, KnownOp, KnownPattern;
    if pc + |rule| <= |ops| {
      AgreesIff(info, ops, rule, pc, |rule|);
      if Agrees(info, ops, rule, pc, |rule|) {
        forall k: Sort
          ensures NamesOf(WindowObligations(info, ops, rule, pc, |rule|), k) == NamesUsed(info, rule, |rule|, k)
        {
          NamesIff(info, ops, rule, pc, |rule|, k);
        }
      }
    }
  }

  // ----- Where the matcher gives up -----

  /** A pattern whose operands from j on are not looked at. */
  function AnyFrom(p: Pattern, j: nat): Pattern
    requires p.InstrMatch?
  {
    p.(modes := seq(|p.modes|, i requires 0 <= i < |p.modes| => if i < j then p.modes[i] else Any))
  }

  /** The rule up to operand j of pattern i. */
  function CutRule(rule: seq<Pattern>, i: nat, j: nat): seq<Pattern>
    requires i < |rule| && rule[i].InstrMatch?
  {
    rule[..i] + [AnyFrom(rule[i], j)]
  }

  lemma CutKnown(info: Table, ops: seq<Op>, rule: seq<Pattern>, i: nat, j: nat)
    requires Known(info, ops, rule) && i < |rule| && rule[i].InstrMatch?
    ensures Known(info, ops, CutRule(rule, i, j))
  {
    assert KnownPattern(info, rule[i]);
  }

  /** A name that is new when sixteen names of its space are taken. */
  ghost predicate OneTooMany(used: set<int>, name: int) { name !in used && |used| == 16 }

  /** Everything before operand j of operation i of the window agrees, and there the
      matcher cannot go on: a label is fixed, a constant floats, or a name is the
      seventeenth of its space. A label operation counts as operand 0. */
  ghost predicate StopsAt(info: Table, ops: seq<Op>, rule: seq<Pattern>, pc: nat, i: nat, j: nat)
    requires i < |rule| && pc + i < |ops| && Known(info, ops, rule)
  {
    match rule[i]
    case InstrMatch(code, operands, modes) =>
      var cut := CutRule(rule, i, j);
      CutKnown(info, ops, rule, i, j);
      && KnownPattern(info, rule[i]) && ops[pc + i].Instr? && ops[pc + i].code == code && j < |info[code]|
      && Agrees(info, ops, cut, pc, i + 1)
      && (|| (modes[j] == Fixed && info[code][j] == LabelOperand)
          || (modes[j] == Floating && (info[code][j] == Integer || info[code][j] == Real))
          || exists k :: FloatsAt(info, rule[i], j, k) && OneTooMany(NamesUsed(info, cut, i + 1, k), operands[j]))
    case LabelMatch(id) =>
      && j == 0 && ops[pc + i].Label? && Agrees(info, ops, rule, pc, i)
      && OneTooMany(NamesUsed(info, rule, i, Labels), id)
    case _ => false
  }

  /** The obligations before number q of a window end inside one operation. */
  lemma {:induction false} SplitAt(info: Table, ops: seq<Op>, rule: seq<Pattern>, pc: nat, n: nat, q: nat)
    returns (i: nat, j: nat)
    requires n <= |rule| && pc + n <= |ops| && Known(info, ops, rule)
    requires q < |WindowObligations(info, ops, rule, pc, n)|
    ensures i < n && j < |OpObligations(info, ops[pc + i], rule[i])|
    ensures var all, own := WindowObligations(info, ops, rule, pc, n), OpObligations(info, ops[pc + i], rule[i]);
            all[..q] == WindowObligations(info, ops, rule, pc, i) + own[..j] && all[q] == own[j]
  {
    hide OpObligations;
    var all, before := WindowObligations(info, ops, rule, pc, n), WindowObligations(info, ops, rule, pc, n - 1);
    if q < |before| {
      i, j := SplitAt(info, ops, rule, pc, n - 1, q);
      assert all[..q] == before[..q];
    } else {
      i, j := n - 1, q - |before|;
    }
  }

  lemma {:induction false} JoinAt(info: Table, ops: seq<Op>, rule: seq<Pattern>, pc: nat, n: nat, i: nat, j: nat)
    returns (q: nat)
    requires n <= |rule| && pc + n <= |ops| && Known(info, ops, rule)
    requires i < n && j < |OpObligations(info, ops[pc + i], rule[i])|
    ensures q < |WindowObligations(info, ops, rule, pc, n)|
    ensures var all, own := WindowObligations(info, ops, rule, pc, n), OpObligations(info, ops[pc + i], rule[i]);
            all[..q] == WindowObligations(info, ops, rule, pc, i) + own[..j] && all[q] == own[j]
  {
    hide OpObligations;
    var all, before := WindowObligations(info, ops, rule, pc, n), WindowObligations(info, ops, rule, pc, n - 1);
    if i < n - 1 {
      q := JoinAt(info, ops, rule, pc, n - 1, i, j);
      assert all[..q] == before[..q];
    } else {
      q := |before| + j;
    }
  }

  /** Obligations that hold anyway change nothing. */
  lemma PadTrue(obs: seq<Obligation>, pad: seq<Obligation>, k: Sort)
    requires forall o :: o in pad ==> o == Holds(true)
    ensures Satisfiable(obs + pad) <==> Satisfiable(obs)
    ensures NamesOf(obs + pad, k) == NamesOf(obs, k)
  {
    SatisfiableIff(obs + pad);
    SatisfiableIff(obs);
    hide Satisfiable;
    assert forall o :: o in obs + pad <==> o in obs || o in pad;
    forall name
      ensures name in NamesOf(obs + pad, k) <==> name in NamesOf(obs, k)
    {
      SameName(obs, pad, k, name);
    }
  }

  lemma SameName(obs: seq<Obligation>, pad: seq<Obligation>, k: Sort, name: int)
    requires forall o :: o in pad ==> o == Holds(true)
    ensures name in NamesOf(obs + pad, k) <==> name in NamesOf(obs, k)
  {
    var all := obs + pad;
    if name in NamesOf(all, k) {
      var q :| 0 <= q < |all| && all[q].Bind? && all[q].sort == k && all[q].name == name;
      assert all[q] in obs + pad && all[q] !in pad;
      var r :| 0 <= r < |obs| && obs[r] == all[q];
    }
    if name in NamesOf(obs, k) {
      var q :| 0 <= q < |obs| && obs[q].Bind? && obs[q].sort == k && obs[q].name == name;
      assert all[q] == obs[q];
    }
  }

  lemma {:induction false} SamePrefix(info: Table, ops: seq<Op>, rule: seq<Pattern>, other: seq<Pattern>, pc: nat, n: nat)
    requires n <= |rule| && n <= |other| && pc + n <= |ops| && Known(info, ops, rule) && Known(info, ops, other)
    requires forall i :: 0 <= i < n ==> rule[i] == other[i]
    ensures WindowObligations(info, ops, rule, pc, n) == WindowObligations(info, ops, other, pc, n)
  {
    if n > 0 {
      SamePrefix(info, ops, rule, other, pc, n - 1);
    }
  }

  /** The obligations before operand j of operation i are those of the rule cut there. */
  lemma CutObligations(info: Table, ops: seq<Op>, rule: seq<Pattern>, pc: nat, i: nat, j: nat) returns (pad: seq<Obligation>)
    requires i < |rule| && pc + i < |ops| && Known(info, ops, rule) && rule[i].InstrMatch?
    requires ops[pc + i].Instr? && ops[pc + i].code == rule[i].code && j < |OpObligations(info, ops[pc + i], rule[i])|
    ensures Known(info, ops, CutRule(rule, i, j))
    ensures WindowObligations(info, ops, CutRule(rule, i, j), pc, i + 1)
         == WindowObligations(info, ops, rule, pc, i) + OpObligations(info, ops[pc + i], rule[i])[..j] + pad
    ensures forall o :: o in pad ==> o == Holds(true)
  {
    var cut := CutRule(rule, i, j);
    CutKnown(info, ops, rule, i, j);
    SamePrefix(info, ops, rule, cut, pc, i);
    var own, short := OpObligations(info, ops[pc + i], rule[i]), OpObligations(info, ops[pc + i], cut[i]);
    assert |own| == |short| && own[..j] == short[..j];
    pad := short[j..];
    assert short == own[..j] + pad;
    hide WindowObligations;
    assert WindowObligations(info, ops, cut, pc, i + 1) == WindowObligations(info, ops, cut, pc, i) + short by {
      LastOperation(info, ops, cut, pc, i);
    }
  }

  lemma LastOperation(info: Table, ops: seq<Op>, rule: seq<Pattern>, pc: nat, i: nat)
    requires i < |rule| && pc + i < |ops| && Known(info, ops, rule)
    ensures WindowObligations(info, ops, rule, pc, i + 1)
         == WindowObligations(info, ops, rule, pc, i) + OpObligations(info, ops[pc + i], rule[i])
  {}

  /** What makes the obligation o, after the obligations init, one the matcher cannot handle. */
  ghost predicate Blocks(init: seq<Obligation>, o: Obligation)
  {
    Satisfiable(init) && (o.Unsupported? || (o.Bind? && OneTooMany(NamesOf(init, o.sort), o.name)))
  }

  lemma StopsIff(info: Table, ops: seq<Op>, rule: seq<Pattern>, pc: nat, i: nat, j: nat)
    requires i < |rule| && pc + i < |ops| && Known(info, ops, rule)
    requires j < |OpObligations(info, ops[pc + i], rule[i])|
    ensures var own := OpObligations(info, ops[pc + i], rule[i]);
            Blocks(WindowObligations(info, ops, rule, pc, i) + own[..j], own[j]) <==> StopsAt(info, ops, rule, pc, i, j)
  {
    var own, before := OpObligations(info, ops[pc + i], rule[i]), WindowObligations(info, ops, rule, pc, i);
    match rule[i] {
      case InstrMatch(code, operands, modes) =>
        if ops[pc + i].Instr? && ops[pc + i].code == code {
          StopsAtOperand(info, ops, rule, pc, i, j);
        }
      case LabelMatch(id) =>
        if ops[pc + i].Label? {
          assert before + own[..j] == before;
          AgreesIff(info, ops, rule, pc, i);
          if Agrees(info, ops, rule, pc, i) { NamesIff(info, ops, rule, pc, i, Labels); }
        }
      case _ =>
    }
  }

  /** The obligation of an operand, sorted out. */
  lemma OperandCases(info: Table, op: Op, p: Pattern, j: nat)
    requires KnownOp(info, op) && KnownPattern(info, p) && p.InstrMatch? && op.Instr? && op.code == p.code
    requires j < |info[p.code]|
    ensures var c, m := info[p.code][j], p.modes[j];
            var o := OperandObligation(c, m, op.operands[j], p.operands[j]);
            && (o.Unsupported? <==> (m == Fixed && c == LabelOperand) || (m == Floating && (c == Integer || c == Real)))
            && (o.Bind? ==> FloatsAt(info, p, j, o.sort) && o.name == p.operands[j])
            && (forall k :: FloatsAt(info, p, j, k) ==> o.Bind? && o.sort == k)
  {}

  lemma StopsAtOperand(info: Table, ops: seq<Op>, rule: seq<Pattern>, pc: nat, i: nat, j: nat)
    requires i < |rule| && pc + i < |ops| && Known(info, ops, rule) && rule[i].InstrMatch?
    requires ops[pc + i].Instr? && ops[pc + i].code == rule[i].code && j < |OpObligations(info, ops[pc + i], rule[i])|
    ensures var own := OpObligations(info, ops[pc + i], rule[i]);
            Blocks(WindowObligations(info, ops, rule, pc, i) + own[..j], own[j]) <==> StopsAt(info, ops, rule, pc, i, j)
  {
    OperandAt(info, ops[pc + i], rule[i], j);
    OperandCases(info, ops[pc + i], rule[i], j);
    hide WindowObligations, Agrees, Satisfiable, NamesOf, NamesUsed, CutRule, OpObligations, OperandObligation, FloatsAt,
         OneTooMany;
    BeforeOperand(info, ops, rule, pc, i, j);
  }

  lemma Padded(info: Table, ops: seq<Op>, cut: seq<Pattern>, pc: nat, init: seq<Obligation>, pad: seq<Obligation>)
    requires pc + |cut| <= |ops| && Known(info, ops, cut)
    requires WindowObligations(info, ops, cut, pc, |cut|) == init + pad && forall o :: o in pad ==> o == Holds(true)
    ensures Satisfiable(init) <==> Agrees(info, ops, cut, pc, |cut|)
    ensures Satisfiable(init) ==> forall k :: NamesOf(init, k) == NamesUsed(info, cut, |cut|, k)
  {
    hide WindowObligations, Agrees, Satisfiable, NamesOf, NamesUsed, KnownOp, KnownPattern;
    AgreesIff(info, ops, cut, pc, |cut|);
    PadTrue(init, pad, Regs);
    if Satisfiable(init) {
      forall k: Sort
        ensures NamesOf(init, k) == NamesUsed(info, cut, |cut|, k)
      {
        PadTrue(init, pad, k);
        NamesIff(info, ops, cut, pc, |cut|, k);
      }
    }
  }

  lemma BeforeOperand(info: Table, ops: seq<Op>, rule: seq<Pattern>, pc: nat, i: nat, j: nat)
    requires i < |rule| && pc + i < |ops| && Known(info, ops, rule) && rule[i].InstrMatch?
    requires ops[pc + i].Instr? && ops[pc + i].code == rule[i].code && j < |OpObligations(info, ops[pc + i], rule[i])|
    ensures Known(info, ops, CutRule(rule, i, j))
    ensures var init := WindowObligations(info, ops, rule, pc, i) + OpObligations(info, ops[pc + i], rule[i])[..j];
            var cut := CutRule(rule, i, j);
            && (Satisfiable(init) <==> Agrees(info, ops, cut, pc, i + 1))
            && (Satisfiable(init) ==> forall k :: NamesOf(init, k) == NamesUsed(info, cut, i + 1, k))
  {
    hide WindowObligations, Agrees, Satisfiable, NamesOf, NamesUsed, OpObligations, KnownOp, KnownPattern;
    var init := WindowObligations(info, ops, rule, pc, i) + OpObligations(info, ops[pc + i], rule[i])[..j];
    var cut := CutRule(rule, i, j);
    var pad := CutObligations(info, ops, rule, pc, i, j);
    assert |cut| == i + 1;
    Padded(info, ops, cut, pc, init, pad);
  }

  /** The verdict is an assertion exactly when the matcher gives up at some place of
      the window, as far as the window lies in the section. */
  lemma AssertionByPositions(info: Table, ops: seq<Op>, rule: seq<Pattern>, pc: nat, v: Verdict)
    requires Known(info, ops, rule) && pc <= |ops| && RuleVerdict(info, ops, rule, pc, v)
    ensures v == Assertion <==> exists i: nat, j: nat :: i < |rule| && pc + i < |ops| && StopsAt(info, ops, rule, pc, i, j)
  {
    var n := WindowSize(ops, rule, pc);
    var obs := WindowObligations(info, ops, rule, pc, n);
    hide StopsAt, WindowObligations, Stuck, Known, Satisfiable, Within;
    if v == Assertion {
      var m :| 0 < m <= |obs| && Stuck(obs[..m]);
      var i, j := StuckStops(info, ops, rule, pc, n, m - 1);
    }
    if i: nat, j: nat :| i < |rule| && pc + i < |ops| && StopsAt(info, ops, rule, pc, i, j) {
      var q := StopsStuck(info, ops, rule, pc, n, i, j);
    }
  }

  lemma StuckStops(info: Table, ops: seq<Op>, rule: seq<Pattern>, pc: nat, n: nat, q: nat) returns (i: nat, j: nat)
    requires n <= |rule| && pc + n <= |ops| && Known(info, ops, rule)
    requires q < |WindowObligations(info, ops, rule, pc, n)| && Stuck(WindowObligations(info, ops, rule, pc, n)[..q + 1])
    ensures i < n && StopsAt(info, ops, rule, pc, i, j)
  {
    hide StopsAt, OpObligations, WindowObligations, Stuck, Blocks, Known;
    StuckIff(WindowObligations(info, ops, rule, pc, n), q);
    i, j := SplitAt(info, ops, rule, pc, n, q);
    StopsIff(info, ops, rule, pc, i, j);
  }

  lemma StopsStuck(info: Table, ops: seq<Op>, rule: seq<Pattern>, pc: nat, n: nat, i: nat, j: nat) returns (q: nat)
    requires n <= |rule| && pc + n <= |ops| && Known(info, ops, rule) && i < n
    requires StopsAt(info, ops, rule, pc, i, j)
    ensures q < |WindowObligations(info, ops, rule, pc, n)| && Stuck(WindowObligations(info, ops, rule, pc, n)[..q + 1])
  {
    StopsInside(info, ops, rule, pc, i, j);
    hide StopsAt, OpObligations, WindowObligations, Stuck, Blocks, Known;
    StopsIff(info, ops, rule, pc, i, j);
    q := JoinAt(info, ops, rule, pc, n, i, j);
    StuckIff(WindowObligations(info, ops, rule, pc, n), q);
  }

  lemma StuckIff(obs: seq<Obligation>, q: nat)
    requires q < |obs|
    ensures Stuck(obs[..q + 1]) <==> Blocks(obs[..q], obs[q])
  {
    hide Satisfiable, NamesOf;
    assert obs[..q + 1][..q] == obs[..q];
  }

  lemma StopsInside(info: Table, ops: seq<Op>, rule: seq<Pattern>, pc: nat, i: nat, j: nat)
    requires i < |rule| && pc + i < |ops| && Known(info, ops, rule) && StopsAt(info, ops, rule, pc, i, j)
    ensures j < |OpObligations(info, ops[pc + i], rule[i])|
  {
    hide Agrees, NamesUsed;
  }
}
