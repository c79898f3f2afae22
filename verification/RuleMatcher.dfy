/** The peephole matcher that back ends use to turn a section of intermediate
    code into machine code. A rule is a short list of patterns; some operands of
    a pattern are fixed, some are ignored, and some float: they stand for a
    register or a label that may be anything, as long as every occurrence of the
    same name in the rule stands for the same thing. */
module RuleMatcher {

  const MAX_WILDCARDS: nat := 16

  datatype Class = IntRegister | FloatRegister | Integer | Real | LabelOperand
  datatype Mode = Any | Fixed | Floating

  datatype Op =
    | Instr(code: nat, operands: seq<int>)
    | Label(id: int)
    | Call(sort: nat)
    | SysCall

  datatype Pattern =
    | InstrMatch(code: nat, operands: seq<int>, modes: seq<Mode>)
    | LabelMatch(id: int)
    | CallMatch(sort: nat)
    | SysCallMatch

  /** The operand classes of each instruction code. */
  type Table = seq<seq<Class>>

  predicate KnownOp(info: Table, op: Op) { op.Instr? ==> op.code < |info| && |op.operands| >= |info[op.code]| }

  predicate KnownPattern(info: Table, p: Pattern)
  {
    p.InstrMatch? ==> p.code < |info| && |p.operands| >= |info[p.code]| && |p.modes| >= |info[p.code]|
  }

  // ----- What a match means -----

  datatype Sort = Regs | Fregs | Labels

  /** What one comparison asks for: a fact, that a name stands for something, or
      something the matcher does not know how to compare. */
  datatype Obligation = Holds(fact: bool) | Bind(sort: Sort, name: int, actual: int) | Unsupported

  type Assignment = (Sort, int) -> int

  predicate Meets(a: Assignment, o: Obligation)
  {
    match o
    case Holds(fact) => fact
    case Bind(sort, name, actual) => a(sort, name) == actual
    case Unsupported => false
  }

  ghost predicate MeetsAll(a: Assignment, obs: seq<Obligation>) { forall i :: 0 <= i < |obs| ==> Meets(a, obs[i]) }

  /** One assignment of actual registers and labels to the floating names meets
      every obligation. */
  ghost predicate Satisfiable(obs: seq<Obligation>) { exists a: Assignment :: MeetsAll(a, obs) }

  function OperandObligation(c: Class, m: Mode, actual: int, wanted: int): Obligation
  {
    match m
    case Any => Holds(true)
    case Fixed => if c == LabelOperand then Unsupported else Holds(wanted == actual)
    case Floating =>
      match c
      case IntRegister => Bind(Regs, wanted, actual)
      case FloatRegister => Bind(Fregs, wanted, actual)
      case LabelOperand => Bind(Labels, wanted, actual)
      case Integer => Unsupported
      case Real => Unsupported
  }

  /** Calls are compared by their sort only, labels always float. */
  function OpObligations(info: Table, op: Op, p: Pattern): seq<Obligation>
    requires KnownOp(info, op) && KnownPattern(info, p)
  {
    match p
    case InstrMatch(code, operands, modes) =>
      if op.Instr? && op.code == code then
        seq(|info[code]|, j requires 0 <= j < |info[code]| =>
          OperandObligation(info[code][j], modes[j], op.operands[j], operands[j]))
      else [Holds(false)]
    case LabelMatch(id) => if op.Label? then [Bind(Labels, id, op.id)] else [Holds(false)]
    case CallMatch(sort) => [Holds(op == Call(sort))]
    case SysCallMatch => [Holds(op == SysCall)]
  }

  function WindowObligations(info: Table, ops: seq<Op>, rule: seq<Pattern>, pc: nat, n: nat): seq<Obligation>
    requires n <= |rule| && pc + n <= |ops| && Known(info, ops, rule)
  {
    if n == 0 then []
    else WindowObligations(info, ops, rule, pc, n - 1) + OpObligations(info, ops[pc + n - 1], rule[n - 1])
  }

  predicate Known(info: Table, ops: seq<Op>, rule: seq<Pattern>)
  {
    (forall i :: 0 <= i < |ops| ==> KnownOp(info, ops[i])) && (forall i :: 0 <= i < |rule| ==> KnownPattern(info, rule[i]))
  }

  ghost function NamesOf(obs: seq<Obligation>, k: Sort): set<int>
  {
    set i | 0 <= i < |obs| && obs[i].Bind? && obs[i].sort == k :: obs[i].name
  }

  ghost predicate Within(obs: seq<Obligation>) { forall k: Sort :: |NamesOf(obs, k)| <= MAX_WILDCARDS }

  /** The last obligation is one the matcher cannot handle, after others that can be met. */
  ghost predicate Stuck(obs: seq<Obligation>)
  {
    |obs| > 0
    && var init, o := obs[..|obs| - 1], obs[|obs| - 1];
       Satisfiable(init)
       && (o.Unsupported?
           || (o.Bind? && o.name !in NamesOf(init, o.sort) && |NamesOf(init, o.sort)| == MAX_WILDCARDS))
  }

  datatype Verdict = Match | NoMatch | Assertion

  /** The verdict on a list of obligations. */
  ghost predicate Decides(obs: seq<Obligation>, v: Verdict)
  {
    && (v == Match <==> Satisfiable(obs) && Within(obs))
    && (v == Assertion <==> exists n :: 0 < n <= |obs| && Stuck(obs[..n]))
  }

  // ----- Reaching a verdict obligation by obligation -----

  /** The first n - 1 obligations are fine and number n settles the verdict. */
  ghost predicate Halts(obs: seq<Obligation>, n: nat, v: Verdict)
  {
    && 0 < n <= |obs| && Satisfiable(obs[..n - 1]) && Within(obs[..n - 1])
    && v == (if Stuck(obs[..n]) then Assertion else NoMatch)
    && (v == NoMatch ==> !Satisfiable(obs[..n]))
  }

  lemma PrefixSatisfiable(obs: seq<Obligation>, n: nat)
    requires n <= |obs| && Satisfiable(obs)
    ensures Satisfiable(obs[..n])
  {
    var a: Assignment :| MeetsAll(a, obs);
    assert MeetsAll(a, obs[..n]);
  }

  lemma PrefixNames(obs: seq<Obligation>, n: nat, k: Sort)
    requires n <= |obs|
    ensures NamesOf(obs[..n], k) <= NamesOf(obs, k)
    ensures |NamesOf(obs[..n], k)| <= |NamesOf(obs, k)|
  {
    var s, t := NamesOf(obs[..n], k), NamesOf(obs, k);
    assert t == s + (t - s);
  }

  /** A list that ends stuck has no match. */
  lemma StuckFails(obs: seq<Obligation>)
    requires Stuck(obs)
    ensures !(Satisfiable(obs) && Within(obs))
  {
    var init, o := obs[..|obs| - 1], obs[|obs| - 1];
    if o.Unsupported? {
      forall a: Assignment
        ensures !MeetsAll(a, obs)
      {
        assert !Meets(a, obs[|obs| - 1]);
      }
    } else {
      assert NamesOf(obs, o.sort) == NamesOf(init, o.sort) + {o.name};
      assert |NamesOf(obs, o.sort)| == MAX_WILDCARDS + 1;
    }
  }

  lemma PrefixFine(obs: seq<Obligation>, n: nat)
    requires n <= |obs| && Satisfiable(obs) && Within(obs)
    ensures Satisfiable(obs[..n]) && Within(obs[..n])
  {
    PrefixSatisfiable(obs, n);
    forall k: Sort
      ensures |NamesOf(obs[..n], k)| <= MAX_WILDCARDS
    {
      PrefixNames(obs, n, k);
    }
  }

  lemma FineDecides(obs: seq<Obligation>)
    requires Satisfiable(obs) && Within(obs)
    ensures Decides(obs, Match)
  {
    forall n | 0 < n <= |obs|
      ensures !Stuck(obs[..n])
    {
      PrefixFine(obs, n);
      if Stuck(obs[..n]) { StuckFails(obs[..n]); }
    }
  }

  /** The first obligation that is not fine settles the verdict on the whole list. */
  lemma HaltsDecides(obs: seq<Obligation>, n: nat, v: Verdict)
    requires Halts(obs, n, v)
    ensures Decides(obs, v) && v != Match
  {
    if Stuck(obs[..n]) {
      StuckFails(obs[..n]);
    }
    assert !(Satisfiable(obs[..n]) && Within(obs[..n]));
    if Satisfiable(obs) && Within(obs) {
      PrefixFine(obs, n);
    }
    forall m | 0 < m <= |obs|
      ensures Stuck(obs[..m]) ==> Stuck(obs[..n])
    {
      if m < n {
        assert obs[..n - 1][..m] == obs[..m];
        PrefixFine(obs[..n - 1], m);
        if Stuck(obs[..m]) { StuckFails(obs[..m]); }
      } else if n < m && !Stuck(obs[..n]) {
        assert obs[..m][..m - 1][..n] == obs[..n];
        if Satisfiable(obs[..m][..m - 1]) { PrefixSatisfiable(obs[..m][..m - 1], n); }
      }
    }
  }

  lemma HaltsExtends(obs: seq<Obligation>, more: seq<Obligation>, n: nat, v: Verdict)
    requires Halts(obs, n, v)
    ensures Halts(obs + more, n, v)
  {
    assert (obs + more)[..n] == obs[..n] && (obs + more)[..n - 1] == obs[..n - 1];
  }

  // ----- The pair lists -----

  datatype Pair = Pair(key: int, value: int)

  ghost predicate DistinctKeys(list: seq<Pair>)
  {
    forall i, j :: 0 <= i < j < |list| ==> list[i].key != list[j].key
  }

  /** The pairs are the bindings asked for so far, each name once. */
  ghost predicate Records(list: seq<Pair>, obs: seq<Obligation>, k: Sort)
  {
    && DistinctKeys(list) && |list| <= MAX_WILDCARDS
    && (forall i :: 0 <= i < |obs| && obs[i].Bind? && obs[i].sort == k ==> Pair(obs[i].name, obs[i].actual) in list)
    && (forall p :: p in list ==> Bind(k, p.key, p.value) in obs)
  }

  function Lookup(list: seq<Pair>, key: int): int
  {
    if list == [] then 0 else if list[0].key == key then list[0].value else Lookup(list[1..], key)
  }

  lemma {:induction false} LookupFinds(list: seq<Pair>, p: Pair)
    requires DistinctKeys(list) && p in list
    ensures Lookup(list, p.key) == p.value
  {
    if list[0] != p {
      var i :| 0 <= i < |list| && list[i] == p;
      assert list[1..][i - 1] == p;
      LookupFinds(list[1..], p);
    }
  }

  ghost function KeysOf(list: seq<Pair>): set<int> { KeysBefore(list, |list|) }

  ghost function KeysBefore(list: seq<Pair>, n: nat): set<int>
    requires n <= |list|
  {
    set i | 0 <= i < n :: list[i].key
  }

  lemma {:induction false} KeysSize(list: seq<Pair>, n: nat)
    requires DistinctKeys(list) && n <= |list|
    ensures |KeysBefore(list, n)| == n
  {
    if n > 0 {
      KeysSize(list, n - 1);
      KeyIsNew(list, n - 1);
      assert KeysBefore(list, n) == KeysBefore(list, n - 1) + {list[n - 1].key};
    }
  }

  lemma KeyIsNew(list: seq<Pair>, n: nat)
    requires DistinctKeys(list) && n < |list|
    ensures list[n].key !in KeysBefore(list, n)
  {}

  lemma RecordsNames(list: seq<Pair>, obs: seq<Obligation>, k: Sort)
    requires Records(list, obs, k)
    ensures NamesOf(obs, k) == KeysOf(list) && |NamesOf(obs, k)| == |list|
  {
    KeysSize(list, |list|);
    forall x
      ensures x in NamesOf(obs, k) <==> x in KeysOf(list)
    {
      if x in NamesOf(obs, k) {
        var i :| 0 <= i < |obs| && obs[i].Bind? && obs[i].sort == k && obs[i].name == x;
        var j :| 0 <= j < |list| && list[j] == Pair(obs[i].name, obs[i].actual);
      }
      if x in KeysOf(list) {
        var j :| 0 <= j < |list| && list[j].key == x;
        assert list[j] in list;
      }
    }
  }

  lemma RecordsFew(list: seq<Pair>, obs: seq<Obligation>, k: Sort)
    requires Records(list, obs, k)
    ensures |list| <= MAX_WILDCARDS
  {}

  lemma LookupRecorded(list: seq<Pair>, obs: seq<Obligation>, i: nat)
    requires i < |obs| && obs[i].Bind? && Records(list, obs, obs[i].sort)
    ensures Lookup(list, obs[i].name) == obs[i].actual
  {
    LookupFinds(list, Pair(obs[i].name, obs[i].actual));
  }

  /** What the matcher finds out about one list of obligations. */
  class MatchState {
    var regs: seq<Pair>
    var fregs: seq<Pair>
    var labels: seq<Pair>

    constructor ()
      ensures Tracks([])
    {
      regs, fregs, labels := [], [], [];
    }

    function List(k: Sort): seq<Pair>
      reads this
    {
      match k case Regs => regs case Fregs => fregs case Labels => labels
    }

    /** All the obligations so far are met, and recorded. */
    ghost predicate Tracks(obs: seq<Obligation>)
      reads this
    {
      && Records(regs, obs, Regs) && Records(fregs, obs, Fregs) && Records(labels, obs, Labels)
      && (forall i :: 0 <= i < |obs| ==> obs[i].Bind? || obs[i] == Holds(true))
    }

    method Reset()
      modifies this
      ensures Tracks([])
    {
      regs, fregs, labels := [], [], [];
    }

    lemma TracksFine(obs: seq<Obligation>)
      requires Tracks(obs)
      ensures Satisfiable(obs) && Within(obs)
    {
      hide Records, Lookup;
      var r, f, l := regs, fregs, labels;
      var a: Assignment := (k: Sort, name: int) =>
        Lookup(match k case Regs => r case Fregs => f case Labels => l, name);
      forall i | 0 <= i < |obs|
        ensures Meets(a, obs[i])
      {
        if obs[i].Bind? {
          LookupRecorded(List(obs[i].sort), obs, i);
        }
      }
      assert MeetsAll(a, obs);
      forall k: Sort
        ensures |NamesOf(obs, k)| <= MAX_WILDCARDS
      {
        RecordsNames(List(k), obs, k);
        RecordsFew(List(k), obs, k);
      }
    }

    /** Compares a floating name with what it should stand for. */
    method ProcessFloating(k: Sort, actual: int, name: int, ghost obs: seq<Obligation>) returns (v: Verdict)
      requires Tracks(obs)
      modifies this
      ensures v == Match ==> Tracks(obs + [Bind(k, name, actual)])
      ensures v != Match ==> Halts(obs + [Bind(k, name, actual)], |obs| + 1, v)
    {
      ghost var now := obs + [Bind(k, name, actual)];
      hide Records, Halts, Satisfiable, Within;
      TracksFine(obs);
      var list := List(k);
      var i := 0;
      while i < |list| && list[i].key != name
        invariant 0 <= i <= |list|
        invariant forall j :: 0 <= j < i ==> list[j].key != name
      {
        i := i + 1;
      }
      if i == |list| {
        TooMany(obs, list, Bind(k, name, actual));
        if i == MAX_WILDCARDS {
          return Assertion;
        }
        list := list + [Pair(name, actual)];
        match k {
          case Regs => regs := list;
          case Fregs => fregs := list;
          case Labels => labels := list;
        }
        NewRecord(list[..i], obs, k, name, actual);
        assert list == list[..i] + [Pair(name, actual)];
        OtherRecords(Bind(k, name, actual), obs, old(regs), old(fregs), old(labels));
        return Match;
      }
      if list[i].value == actual {
        assert list[i] == Pair(name, actual);
        OldRecord(list, obs, k, name, actual);
        OtherRecords(Bind(k, name, actual), obs, regs, fregs, labels);
        return Match;
      }
      Seen(obs, list, k, i);
      Conflict(obs, Bind(k, name, actual), list[i].value);
      v := NoMatch;
    }

    /** Compares one operation with one pattern. */
    method MatchOp(info: Table, op: Op, p: Pattern, ghost obs: seq<Obligation>) returns (v: Verdict, ghost n: nat)
      requires KnownOp(info, op) && KnownPattern(info, p) && Tracks(obs)
      modifies this
      ensures v == Match ==> Tracks(obs + OpObligations(info, op, p))
      ensures v != Match ==> Halts(obs + OpObligations(info, op, p), n, v)
    {
      ghost var asked := OpObligations(info, op, p);
      n := 0;
      TracksFine(obs);
      match p {
        case LabelMatch(id) =>
          if op.Label? {
            v := ProcessFloating(Labels, op.id, id, obs);
            return v, |obs| + 1;
          }
        case CallMatch(sort) =>
          if op == Call(sort) {
            TracksMore(obs, Holds(true));
            return Match, 0;
          }
        case SysCallMatch =>
          if op == SysCall {
            TracksMore(obs, Holds(true));
            return Match, 0;
          }
        case InstrMatch(code, operands, modes) =>
          if op.Instr? && op.code == code {
            v, n := MatchOperands(info[code], op.operands, operands, modes, obs, asked);
            return;
          }
      }
      Fails(obs, Holds(false));
      return NoMatch, |obs| + 1;
    }

    method MatchOperands(classes: seq<Class>, actual: seq<int>, wanted: seq<int>, modes: seq<Mode>,
                         ghost obs: seq<Obligation>, ghost asked: seq<Obligation>)
      returns (v: Verdict, ghost n: nat)
      requires |actual| >= |classes| && |wanted| >= |classes| && |modes| >= |classes| == |asked|
      requires forall j :: 0 <= j < |classes| ==> asked[j] == OperandObligation(classes[j], modes[j], actual[j], wanted[j])
      requires Tracks(obs)
      modifies this
      ensures v == Match ==> Tracks(obs + asked)
      ensures v != Match ==> Halts(obs + asked, n, v)
    {
      hide Halts, Satisfiable, Within;
      var j := 0;
      n := 0;
      assert obs + asked[..0] == obs;
      while j < |classes|
        invariant 0 <= j <= |classes|
        invariant Tracks(obs + asked[..j])
      {
        ghost var done := obs + asked[..j];
        ghost var next := obs + asked[..j + 1];
        assert next == done + [asked[j]] && obs + asked == next + asked[j + 1..];
        v := Match;
        if modes[j] == Any {
          TracksMore(done, Holds(true));
        } else if modes[j] == Fixed {
          if classes[j] == LabelOperand {
            v := Assertion;
            GivesUp(done);
          } else if wanted[j] != actual[j] {
            v := NoMatch;
            Fails(done, Holds(false));
          } else {
            TracksMore(done, Holds(true));
          }
        } else {
          match classes[j] {
            case IntRegister => v := ProcessFloating(Regs, actual[j], wanted[j], done);
            case FloatRegister => v := ProcessFloating(Fregs, actual[j], wanted[j], done);
            case LabelOperand => v := ProcessFloating(Labels, actual[j], wanted[j], done);
            case Integer => v := Assertion; GivesUp(done);
            case Real => v := Assertion; GivesUp(done);
          }
        }
        if v != Match {
          n := |next|;
          HaltsExtends(next, asked[j + 1..], n, v);
          return;
        }
        j := j + 1;
      }
      assert asked[..j] == asked;
      v := Match;
    }

    lemma TracksMore(obs: seq<Obligation>, o: Obligation)
      requires Tracks(obs) && o == Holds(true)
      ensures Tracks(obs + [o]) && Tracks(obs + [])
    {
      assert obs + [] == obs;
    }

    lemma Fails(obs: seq<Obligation>, o: Obligation)
      requires Tracks(obs) && o == Holds(false)
      ensures Halts(obs + [o], |obs| + 1, NoMatch)
    {
      TracksFine(obs);
      var now := obs + [o];
      assert now[..|obs|] == obs && now[..|obs| + 1] == now;
      forall a: Assignment
        ensures !MeetsAll(a, now)
      {
        assert !Meets(a, now[|obs|]);
      }
    }

    lemma GivesUp(obs: seq<Obligation>)
      requires Tracks(obs)
      ensures Halts(obs + [Unsupported], |obs| + 1, Assertion)
    {
      TracksFine(obs);
      var now := obs + [Unsupported];
      assert now[..|obs|] == obs && now[..|obs| + 1] == now;
    }

    /** Compares the operations from pc on with a whole rule. */
    method MatchRule(info: Table, ops: seq<Op>, rule: seq<Pattern>, pc: nat) returns (v: Verdict)
      requires Known(info, ops, rule) && pc < |ops|
      modifies this
      ensures RuleVerdict(info, ops, rule, pc, v)
    {
      hide Stuck, Satisfiable, Within, Halts, OpObligations, Tracks, KnownOp, KnownPattern;
      Reset();
      var j := 0;
      while j < |rule| && pc + j < |ops|
        invariant 0 <= j <= |rule| && pc + j <= |ops|
        invariant Tracks(WindowObligations(info, ops, rule, pc, j))
      {
        ghost var obs := WindowObligations(info, ops, rule, pc, j);
        ghost var n;
        v, n := MatchOp(info, ops[pc + j], rule[j], obs);
        if v != Match {
          HaltsDecides(WindowObligations(info, ops, rule, pc, j + 1), n, v);
          HaltsInWindow(info, ops, rule, pc, j + 1, n, v);
          return;
        }
        j := j + 1;
      }
      TracksFine(WindowObligations(info, ops, rule, pc, j));
      FineDecides(WindowObligations(info, ops, rule, pc, j));
      v := if j == |rule| then Match else NoMatch;
    }
  }

  /** As much of the rule as fits into the section. */
  function WindowSize(ops: seq<Op>, rule: seq<Pattern>, pc: nat): nat
    requires pc <= |ops|
  {
    if pc + |rule| <= |ops| then |rule| else |ops| - pc
  }

  /** A rule matches when its whole window is in the section and one assignment
      meets the window; a rule cut short by the end of the section is still
      compared as far as it goes. */
  ghost predicate RuleVerdict(info: Table, ops: seq<Op>, rule: seq<Pattern>, pc: nat, v: Verdict)
    requires Known(info, ops, rule) && pc <= |ops|
  {
    var n := WindowSize(ops, rule, pc);
    var obs := WindowObligations(info, ops, rule, pc, n);
    && (v == Match <==> n == |rule| && Satisfiable(obs) && Within(obs))
    && (v == Assertion <==> exists m :: 0 < m <= |obs| && Stuck(obs[..m]))
  }

  lemma {:induction false} HaltsInWindow(info: Table, ops: seq<Op>, rule: seq<Pattern>, pc: nat, j: nat, n: nat, v: Verdict)
    requires Known(info, ops, rule) && pc <= |ops| && j <= WindowSize(ops, rule, pc)
    requires Halts(WindowObligations(info, ops, rule, pc, j), n, v)
    ensures RuleVerdict(info, ops, rule, pc, v)
    decreases WindowSize(ops, rule, pc) - j
  {
    hide Halts, Satisfiable, Within, Stuck, OpObligations, KnownOp, KnownPattern;
    if j == WindowSize(ops, rule, pc) {
      HaltsDecides(WindowObligations(info, ops, rule, pc, j), n, v);
    } else {
      HaltsExtends(WindowObligations(info, ops, rule, pc, j), OpObligations(info, ops[pc + j], rule[j]), n, v);
      HaltsInWindow(info, ops, rule, pc, j + 1, n, v);
    }
  }

  lemma NewRecord(list: seq<Pair>, obs: seq<Obligation>, k: Sort, name: int, actual: int)
    requires Records(list, obs, k) && |list| < MAX_WILDCARDS && forall j :: 0 <= j < |list| ==> list[j].key != name
    ensures Records(list + [Pair(name, actual)], obs + [Bind(k, name, actual)], k)
  {}

  /** A name that has not been seen yet, when all the places are taken. */
  lemma TooMany(obs: seq<Obligation>, list: seq<Pair>, o: Obligation)
    requires o.Bind? && Records(list, obs, o.sort) && Satisfiable(obs) && Within(obs)
    requires forall j :: 0 <= j < |list| ==> list[j].key != o.name
    ensures |list| <= MAX_WILDCARDS
    ensures |list| == MAX_WILDCARDS ==> Halts(obs + [o], |obs| + 1, Assertion)
  {
    RecordsNames(list, obs, o.sort);
    var now := obs + [o];
    assert now[..|obs|] == obs && now[..|obs| + 1] == now;
  }

  lemma Seen(obs: seq<Obligation>, list: seq<Pair>, k: Sort, i: nat)
    requires Records(list, obs, k) && i < |list|
    ensures Bind(k, list[i].key, list[i].value) in obs
  {
    assert list[i] in list;
  }

  lemma OldRecord(list: seq<Pair>, obs: seq<Obligation>, k: Sort, name: int, actual: int)
    requires Records(list, obs, k) && Pair(name, actual) in list
    ensures Records(list, obs + [Bind(k, name, actual)], k)
  {}

  lemma OtherRecords(o: Obligation, obs: seq<Obligation>, regs: seq<Pair>, fregs: seq<Pair>, labels: seq<Pair>)
    requires o.Bind? && Records(regs, obs, Regs) && Records(fregs, obs, Fregs) && Records(labels, obs, Labels)
    ensures o.sort != Regs ==> Records(regs, obs + [o], Regs)
    ensures o.sort != Fregs ==> Records(fregs, obs + [o], Fregs)
    ensures o.sort != Labels ==> Records(labels, obs + [o], Labels)
  {}

  /** Two different things wanted of one name. */
  lemma Conflict(obs: seq<Obligation>, o: Obligation, other: int)
    requires Satisfiable(obs) && Within(obs)
    requires o.Bind? && other != o.actual && Bind(o.sort, o.name, other) in obs
    ensures Halts(obs + [o], |obs| + 1, NoMatch)
  {
    var now := obs + [o];
    assert now[..|obs|] == obs && now[..|obs| + 1] == now;
    var i :| 0 <= i < |obs| && obs[i] == Bind(o.sort, o.name, other);
    forall a: Assignment
      ensures !MeetsAll(a, now)
    {
      assert now[i] == obs[i] && now[|obs|] == o;
      assert !Meets(a, now[i]) || !Meets(a, now[|obs|]);
    }
    assert o.name in NamesOf(obs, o.sort);
  }

  // ----- Tiling a section -----

  /** A rule set at work on a section. */
  datatype Job = Job(info: Table, nop: nat, ops: seq<Op>, rules: seq<seq<Pattern>>)

  /** The action of a rule, run on the window that starts at pc. */
  datatype Step = Step(pc: nat, rule: nat)

  predicate Sensible(job: Job)
  {
    forall r :: 0 <= r < |job.rules| ==> job.rules[r] != [] && Known(job.info, job.ops, job.rules[r])
  }

  predicate IsNop(job: Job, pc: nat)
    requires pc < |job.ops|
  {
    job.ops[pc].Instr? && job.ops[pc].code == job.nop
  }

  predicate NopsBetween(job: Job, from: nat, to: nat)
    requires to <= |job.ops|
  {
    forall i :: from <= i < to ==> IsNop(job, i)
  }

  /** The lowest-numbered rule that matches at pc; none before it even hit an assertion. */
  ghost predicate Chosen(job: Job, s: Step)
    requires Sensible(job)
  {
    && s.pc < |job.ops| && s.rule < |job.rules| && !IsNop(job, s.pc)
    && RuleVerdict(job.info, job.ops, job.rules[s.rule], s.pc, Match)
    && forall r :: 0 <= r < s.rule ==> RuleVerdict(job.info, job.ops, job.rules[r], s.pc, NoMatch)
  }

  /** Where the window after the first i steps may begin. */
  function Start(job: Job, steps: seq<Step>, i: nat): nat
    requires i <= |steps|
  {
    if i == 0 then 0 else End(job, steps[i - 1])
  }

  function End(job: Job, s: Step): nat { s.pc + if s.rule < |job.rules| then |job.rules[s.rule]| else 0 }

  /** Step i handles the first operation that does something after the steps before it. */
  ghost predicate Placed(job: Job, steps: seq<Step>, i: nat)
    requires Sensible(job) && i < |steps|
  {
    Chosen(job, steps[i]) && Start(job, steps, i) <= steps[i].pc && NopsBetween(job, Start(job, steps, i), steps[i].pc)
  }

  /** The steps cut the operations before end, except for operations that do
      nothing, into consecutive windows, each handled by the rule chosen there. */
  ghost predicate Tiling(job: Job, steps: seq<Step>, end: nat)
    requires Sensible(job)
  {
    && (forall i :: 0 <= i < |steps| ==> Placed(job, steps, i))
    && Start(job, steps, |steps|) <= end <= |job.ops|
    && NopsBetween(job, Start(job, steps, |steps|), end)
  }

  lemma VerdictUnique(info: Table, ops: seq<Op>, rule: seq<Pattern>, pc: nat, v: Verdict, w: Verdict)
    requires Known(info, ops, rule) && pc <= |ops|
    requires RuleVerdict(info, ops, rule, pc, v) && RuleVerdict(info, ops, rule, pc, w)
    ensures v == w
  {}

  lemma ChosenUnique(job: Job, s: Step, t: Step)
    requires Sensible(job) && Chosen(job, s) && Chosen(job, t) && s.pc == t.pc
    ensures s == t
  {
    hide RuleVerdict;
    if s.rule < t.rule {
      VerdictUnique(job.info, job.ops, job.rules[s.rule], s.pc, Match, NoMatch);
    } else if t.rule < s.rule {
      VerdictUnique(job.info, job.ops, job.rules[t.rule], s.pc, Match, NoMatch);
    }
  }

  /** An operation that does something is not among those that do nothing. */
  lemma BusyIsLater(job: Job, from: nat, to: nat, pc: nat)
    requires to <= |job.ops| && NopsBetween(job, from, to) && from <= pc < |job.ops| && !IsNop(job, pc)
    ensures to <= pc
  {}

  lemma StepPlace(job: Job, s: seq<Step>, d: nat, i: nat)
    requires Sensible(job) && Tiling(job, s, d) && i < |s|
    ensures Chosen(job, s[i]) && s[i].pc < |job.ops| && !IsNop(job, s[i].pc)
    ensures Start(job, s, i) <= s[i].pc && NopsBetween(job, Start(job, s, i), s[i].pc)
    ensures Start(job, s, i + 1) == End(job, s[i]) > s[i].pc
  {
    assert Placed(job, s, i);
  }

  /** Two tilings agree as far as both go. */
  lemma {:induction false} TilingsAgree(job: Job, s: seq<Step>, d: nat, t: seq<Step>, e: nat, i: nat)
    requires Sensible(job) && Tiling(job, s, d) && Tiling(job, t, e) && i <= |s| && i <= |t|
    ensures forall k :: 0 <= k < i ==> s[k] == t[k]
    ensures Start(job, s, i) == Start(job, t, i)
  {
    hide Chosen, Tiling, NopsBetween;
    if i > 0 {
      TilingsAgree(job, s, d, t, e, i - 1);
      StepPlace(job, s, d, i - 1);
      StepPlace(job, t, e, i - 1);
      BusyIsLater(job, Start(job, s, i - 1), s[i - 1].pc, t[i - 1].pc);
      BusyIsLater(job, Start(job, s, i - 1), t[i - 1].pc, s[i - 1].pc);
      ChosenUnique(job, s[i - 1], t[i - 1]);
    }
  }

  /** A section has at most one tiling. */
  lemma TilingUnique(job: Job, s: seq<Step>, t: seq<Step>)
    requires Sensible(job) && Tiling(job, s, |job.ops|) && Tiling(job, t, |job.ops|)
    ensures s == t
  {
    if |s| <= |t| {
      TilingNotLonger(job, s, t);
    } else {
      TilingNotLonger(job, t, s);
    }
  }

  lemma TilingNotLonger(job: Job, s: seq<Step>, t: seq<Step>)
    requires Sensible(job) && Tiling(job, s, |job.ops|) && Tiling(job, t, |job.ops|) && |s| <= |t|
    ensures s == t
  {
    hide Chosen, Placed, IsNop;
    TilingsAgree(job, s, |job.ops|, t, |job.ops|, |s|);
    if |s| < |t| {
      StepPlace(job, t, |job.ops|, |s|);
    }
  }

  /** A tiling has reached a place where no rule is chosen. */
  ghost predicate Blocked(job: Job, steps: seq<Step>, pc: nat)
    requires Sensible(job)
  {
    && Tiling(job, steps, pc) && pc < |job.ops| && !IsNop(job, pc)
    && forall s: Step :: s.pc == pc ==> !Chosen(job, s)
  }

  /** Then the section as a whole has no tiling. */
  lemma BlockedHasNoTiling(job: Job, steps: seq<Step>, pc: nat, t: seq<Step>)
    requires Sensible(job) && Blocked(job, steps, pc)
    ensures !Tiling(job, t, |job.ops|)
  {
    hide Chosen, Placed, IsNop;
    if Tiling(job, t, |job.ops|) {
      var n := if |steps| < |t| then |steps| else |t|;
      TilingsAgree(job, steps, pc, t, |job.ops|, n);
      if n < |steps| {
        StepPlace(job, steps, pc, n);
      } else if n < |t| {
        StepPlace(job, t, |job.ops|, n);
        BusyIsLater(job, Start(job, steps, n), t[n].pc, pc);
        BusyIsLater(job, Start(job, steps, n), pc, t[n].pc);
      }
    }
  }

  ghost predicate HasTiling(job: Job)
    requires Sensible(job)
  {
    exists t :: Tiling(job, t, |job.ops|)
  }

  lemma BlockedFails(job: Job, steps: seq<Step>, pc: nat)
    requires Sensible(job) && Blocked(job, steps, pc)
    ensures !HasTiling(job)
  {
    forall t
      ensures !Tiling(job, t, |job.ops|)
    {
      BlockedHasNoTiling(job, steps, pc, t);
    }
  }

  /** Windows of a tiling are disjoint and in order. */
  lemma {:induction false} WindowsOrdered(job: Job, s: seq<Step>, end: nat, i: nat, j: nat)
    requires Sensible(job) && Tiling(job, s, end) && i < j < |s|
    ensures End(job, s[i]) <= s[j].pc
    decreases j
  {
    hide Chosen, NopsBetween, Tiling, End;
    StepPlace(job, s, end, j - 1);
    StepPlace(job, s, end, j);
    if i < j - 1 {
      WindowsOrdered(job, s, end, i, j - 1);
    }
  }

  /** Every operation that does something and comes before the end of a window
      lies in a window. */
  lemma {:induction false} EveryOpInWindow(job: Job, s: seq<Step>, end: nat, n: nat, pc: nat)
    requires Sensible(job) && Tiling(job, s, end) && n <= |s| && pc < Start(job, s, n) && pc < |job.ops| && !IsNop(job, pc)
    ensures exists i :: 0 <= i < n && s[i].pc <= pc < End(job, s[i])
  {
    hide Chosen, Tiling, NopsBetween;
    StepPlace(job, s, end, n - 1);
    if pc < s[n - 1].pc {
      BusyIsEarlier(job, Start(job, s, n - 1), s[n - 1].pc, pc);
      EveryOpInWindow(job, s, end, n - 1, pc);
    }
  }

  lemma BusyIsEarlier(job: Job, from: nat, to: nat, pc: nat)
    requires to <= |job.ops| && NopsBetween(job, from, to) && pc < to && !IsNop(job, pc)
    ensures pc < from
  {}

  /** A tiling of the whole section is a partition: each operation that does
      something lies in one window and in no other. */
  lemma TilingPartitions(job: Job, s: seq<Step>, pc: nat)
    requires Sensible(job) && Tiling(job, s, |job.ops|) && pc < |job.ops| && !IsNop(job, pc)
    ensures exists i :: 0 <= i < |s| && s[i].pc <= pc < End(job, s[i])
    ensures forall i, j :: 0 <= i < j < |s| ==> !(s[i].pc <= pc < End(job, s[i]) && s[j].pc <= pc < End(job, s[j]))
  {
    if Start(job, s, |s|) <= pc {
      BusyIsLater(job, Start(job, s, |s|), |job.ops|, pc);
    } else {
      EveryOpInWindow(job, s, |job.ops|, |s|, pc);
    }
    hide Tiling;
    forall i, j | 0 <= i < j < |s|
      ensures End(job, s[i]) <= s[j].pc
    {
      WindowsOrdered(job, s, |job.ops|, i, j);
    }
  }

  /** What a tiling says of the operations: each step acts on operations that are
      there, begins with one that is not idle, and its rule matches while no rule
      before it does; operations outside all windows are idle. */
  lemma TilingMeaning(job: Job, s: seq<Step>, i: nat, r: nat, pc: nat)
    requires Sensible(job) && Tiling(job, s, |job.ops|)
    ensures forall j :: 0 <= j < |s| ==> s[j].rule < |job.rules|
    ensures i < |s| ==>
              && s[i].pc + |job.rules[s[i].rule]| <= |job.ops|
              && !(job.ops[s[i].pc].Instr? && job.ops[s[i].pc].code == job.nop)
              && RuleVerdict(job.info, job.ops, job.rules[s[i].rule], s[i].pc, Match)
              && (r < s[i].rule ==> RuleVerdict(job.info, job.ops, job.rules[r], s[i].pc, NoMatch))
    ensures pc < |job.ops| && (forall j :: 0 <= j < |s| ==>
                                 !(s[j].pc <= pc < s[j].pc + |job.rules[s[j].rule]|)) ==>
              job.ops[pc].Instr? && job.ops[pc].code == job.nop
  {
    if i < |s| {
      StepPlace(job, s, |job.ops|, i);
    }
    forall j | 0 <= j < |s|
      ensures s[j].rule < |job.rules| && End(job, s[j]) == s[j].pc + |job.rules[s[j].rule]|
    {
      StepPlace(job, s, |job.ops|, j);
    }
    if pc < |job.ops| && !IsNop(job, pc) {
      TilingPartitions(job, s, pc);
    }
  }

  /** The driver: at each operation that does something the first matching rule
      acts, and the section is given up when there is none. */
  method MatchSection(job: Job, inErrorHandler: bool) returns (ok: bool, steps: seq<Step>, ghost end: nat)
    requires Sensible(job)
    ensures ok <==> !inErrorHandler && HasTiling(job)
    ensures ok ==> Tiling(job, steps, |job.ops|)
    ensures !ok && !inErrorHandler ==> Blocked(job, steps, end)
  {
    hide Chosen, RuleVerdict, Placed, Start, Tiling;
    ok, steps, end := true, [], 0;
    if inErrorHandler {
      return false, [], 0;
    }
    var state := new MatchState();
    var pc := 0;
    EmptyTiling(job);
    while pc < |job.ops|
      invariant pc <= |job.ops| && Tiling(job, steps, pc)
      decreases |job.ops| - pc
    {
      if IsNop(job, pc) {
        SkipNop(job, steps, pc);
        pc := pc + 1;
        continue;
      }
      var i := 0;
      var v := NoMatch;
      while i < |job.rules|
        invariant 0 <= i <= |job.rules|
        invariant forall r :: 0 <= r < i ==> RuleVerdict(job.info, job.ops, job.rules[r], pc, NoMatch)
      {
        v := state.MatchRule(job.info, job.ops, job.rules[i], pc);
        if v == Assertion {
          NothingChosen(job, pc, i, true);
          BlockedFails(job, steps, pc);
          return false, steps, pc;
        }
        if v == Match {
          break;
        }
        i := i + 1;
      }
      if i == |job.rules| {
        NothingChosen(job, pc, i, false);
        BlockedFails(job, steps, pc);
        return false, steps, pc;
      }
      NextTile(job, steps, pc, i);
      steps := steps + [Step(pc, i)];
      pc := pc + |job.rules[i]|;
    }
  }

  lemma EmptyTiling(job: Job)
    requires Sensible(job)
    ensures Tiling(job, [], 0)
  {}

  lemma SkipNop(job: Job, steps: seq<Step>, pc: nat)
    requires Sensible(job) && Tiling(job, steps, pc) && pc < |job.ops| && IsNop(job, pc)
    ensures Tiling(job, steps, pc + 1)
  {}

  lemma NothingChosen(job: Job, pc: nat, i: nat, asserted: bool)
    requires Sensible(job) && pc < |job.ops| && i <= |job.rules|
    requires forall r :: 0 <= r < i ==> RuleVerdict(job.info, job.ops, job.rules[r], pc, NoMatch)
    requires if asserted then i < |job.rules| && RuleVerdict(job.info, job.ops, job.rules[i], pc, Assertion) else i == |job.rules|
    ensures forall s: Step :: s.pc == pc ==> !Chosen(job, s)
  {
    hide RuleVerdict;
    forall s: Step | s.pc == pc
      ensures !Chosen(job, s)
    {
      var r := s.rule;
      if r < |job.rules| && RuleVerdict(job.info, job.ops, job.rules[r], pc, Match) {
        if r < i {
          VerdictUnique(job.info, job.ops, job.rules[r], pc, Match, NoMatch);
        } else if r == i {
          VerdictUnique(job.info, job.ops, job.rules[r], pc, Match, Assertion);
        } else if Chosen(job, s) {
          VerdictUnique(job.info, job.ops, job.rules[i], pc, Assertion, NoMatch);
        }
      }
    }
  }

  lemma NextTile(job: Job, steps: seq<Step>, pc: nat, rule: nat)
    requires Sensible(job) && Tiling(job, steps, pc) && pc < |job.ops| && !IsNop(job, pc) && rule < |job.rules|
    requires RuleVerdict(job.info, job.ops, job.rules[rule], pc, Match)
    requires forall r :: 0 <= r < rule ==> RuleVerdict(job.info, job.ops, job.rules[r], pc, NoMatch)
    ensures pc + |job.rules[rule]| <= |job.ops|
    ensures Tiling(job, steps + [Step(pc, rule)], pc + |job.rules[rule]|)
  {
    hide RuleVerdict;
    FitsInSection(job, pc, rule);
    var more := steps + [Step(pc, rule)];
    hide Chosen, NopsBetween;
    ChosenHere(job, pc, rule);
    forall i | 0 <= i < |more|
      ensures Placed(job, more, i)
    {
      SamePlace(job, steps, more, i);
    }
    NoNops(job, pc + |job.rules[rule]|);
  }

  lemma FitsInSection(job: Job, pc: nat, rule: nat)
    requires Sensible(job) && pc < |job.ops| && rule < |job.rules|
    requires RuleVerdict(job.info, job.ops, job.rules[rule], pc, Match)
    ensures pc + |job.rules[rule]| <= |job.ops|
  {}

  lemma ChosenHere(job: Job, pc: nat, rule: nat)
    requires Sensible(job) && pc < |job.ops| && !IsNop(job, pc) && rule < |job.rules|
    requires RuleVerdict(job.info, job.ops, job.rules[rule], pc, Match)
    requires forall r :: 0 <= r < rule ==> RuleVerdict(job.info, job.ops, job.rules[r], pc, NoMatch)
    ensures Chosen(job, Step(pc, rule))
  {}

  lemma NoNops(job: Job, pc: nat)
    requires pc <= |job.ops|
    ensures NopsBetween(job, pc, pc)
  {}

  lemma SamePlace(job: Job, steps: seq<Step>, more: seq<Step>, i: nat)
    requires |steps| + 1 == |more| && steps == more[..|steps|] && i <= |steps|
    ensures Start(job, more, i) == Start(job, steps, i)
    ensures Sensible(job) && i < |steps| ==> Placed(job, more, i) == Placed(job, steps, i)
  {
    hide Chosen, NopsBetween;
    assert forall k :: 0 <= k < |steps| ==> more[k] == steps[k];
  }
}
