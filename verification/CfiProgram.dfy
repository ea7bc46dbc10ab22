// Call-frame programs at the level of whole instructions: their effect on the
// unwind rules, the early-stopping run of src/dwarf/cfi.c, and the row table of
// sections 6.4.1 and 6.4.3 of the DWARF 5 standard that it stands for.
module CfiProgram {
  import opened Machine

  const SLOTS: nat := 32
  const NO_CFA_REG: u16 := 0xffff

  datatype Rule = Undefined | SameValue | AtOffset(offset: i64)

  type RuleBank = s: seq<Rule> | |s| == 32 witness seq(32, _ => SameValue)

  /** The virtual machine's state: one row of the unwind table. */
  datatype Rules = Rules(cfaReg: u16, cfaOffset: i64, regs: RuleBank)

  /** The state before any instruction. */
  function Reset(): Rules {
    Rules(NO_CFA_REG, 0, seq(32, _ => SameValue))
  }

  /** The constants of a CIE that its programs depend on. */
  datatype Factors = Factors(codeAlign: u64, dataAlign: i64, addressSize: byte)

  /** One constructor per opcode the interpreter supports. */
  datatype Instr =
    | Advance(delta: byte)
    | OffsetReg(reg: byte, offset: u64)
    | RestoreReg(reg: byte)
    | Nop
    | SetLoc(loc: u64)
    | Advance1(wide: u64)
    | Advance2(wide: u64)
    | Advance4(wide: u64)
    | DefCfa(wideReg: u64, offset: u64)
    | DefCfaRegister(wideReg: u64)
    | DefCfaOffset(offset: u64)
    | OffsetExtended(wideReg: u64, offset: u64)
    | RestoreExtended(wideReg: u64)
    | DefCfaSf(wideReg: u64, factored: i64)
    | DefCfaOffsetSf(factored: i64)
  {
    /** Does the instruction move the location, that is, start a new row? */
    predicate Moves() {
      Advance? || SetLoc? || Advance1? || Advance2? || Advance4?
    }
  }

  function SetRule(st: Rules, reg: nat, rule: Rule): Rules {
    if reg < SLOTS then st.(regs := st.regs[reg := rule]) else st
  }

  function Restored(st: Rules, reg: nat, initial: Rules): Rules {
    if reg < SLOTS then SetRule(st, reg, initial.regs[reg]) else st
  }

  /** The effect of an instruction on the current row's rules. */
  function Apply(f: Factors, i: Instr, st: Rules, initial: Rules): Rules {
    match i
    case OffsetReg(reg, offset) => SetRule(st, reg, AtOffset(ToSigned(offset * f.dataAlign)))
    case OffsetExtended(reg, offset) => SetRule(st, reg, AtOffset(ToSigned(offset * f.dataAlign)))
    case RestoreReg(reg) => Restored(st, reg, initial)
    case RestoreExtended(reg) => Restored(st, reg, initial)
    case DefCfa(reg, offset) => st.(cfaReg := reg % 0x1_0000, cfaOffset := ToSigned(offset))
    case DefCfaRegister(reg) => st.(cfaReg := reg % 0x1_0000)
    case DefCfaOffset(offset) => st.(cfaOffset := ToSigned(offset))
    case DefCfaSf(reg, factored) =>
      st.(cfaReg := reg % 0x1_0000, cfaOffset := ToSigned(factored * f.dataAlign))
    case DefCfaOffsetSf(factored) => st.(cfaOffset := ToSigned(factored * f.dataAlign))
    case _ => st
  }

  /** The location after an instruction. */
  function Move(f: Factors, i: Instr, loc: u64): u64 {
    match i
    case Advance(delta) => Wrap(loc + delta * f.codeAlign)
    case Advance1(delta) => Wrap(loc + delta * f.codeAlign)
    case Advance2(delta) => Wrap(loc + delta * f.codeAlign)
    case Advance4(delta) => Wrap(loc + delta * f.codeAlign)
    case SetLoc(target) => target
    case _ => loc
  }

  /** An instruction either moves the location or changes the rules. */
  lemma MoveOrApply(f: Factors, i: Instr, loc: u64, st: Rules, initial: Rules)
    ensures if i.Moves() then Apply(f, i, st, initial) == st else Move(f, i, loc) == loc
  {
  }

  /** A decoded byte program: its instructions, then how decoding ended. */
  datatype Program = Program(code: seq<Instr>, tail: Status)

  datatype Outcome = Outcome(status: Status, rules: Rules)

  /** The interpreter's run: stop at the first move beyond `target`. */
  function Run(f: Factors, code: seq<Instr>, tail: Status, loc: u64, target: u64, st: Rules, initial: Rules): Outcome {
    if code == [] then Outcome(tail, st)
    else
      var next := Move(f, code[0], loc);
      if code[0].Moves() && next > target then Outcome(Ok, st)
      else Run(f, code[1..], tail, next, target, Apply(f, code[0], st, initial), initial)
  }

  // ---------------------------------------------------------------------
  // The row table

  datatype Row = Row(loc: u64, rules: Rules)

  /** The whole program unrolled: each move completes a row and opens the next. */
  function Table(f: Factors, code: seq<Instr>, loc: u64, st: Rules, initial: Rules): (t: seq<Row>)
    ensures |t| >= 1 && t[0].loc == loc
  {
    if code == [] then [Row(loc, st)]
    else if code[0].Moves() then
      [Row(loc, st)] + Table(f, code[1..], Move(f, code[0], loc), st, initial)
    else
      Table(f, code[1..], loc, Apply(f, code[0], st, initial), initial)
  }

  /** Row `k` is in force just before the first row beyond `target`. */
  ghost predicate LastBeforeExcess(t: seq<Row>, target: u64, k: nat) {
    && k < |t|
    && (forall j :: 0 <= j <= k ==> t[j].loc <= target)
    && (k + 1 == |t| || t[k + 1].loc > target)
  }

  /** Row `k` is the last one whose location does not exceed `target`. */
  ghost predicate LastRowFor(t: seq<Row>, target: u64, k: nat) {
    && k < |t|
    && t[k].loc <= target
    && (forall j :: k < j < |t| ==> t[j].loc > target)
  }

  ghost predicate NonDecreasing(t: seq<Row>) {
    forall i, j :: 0 <= i <= j < |t| ==> t[i].loc <= t[j].loc
  }

  /** No row is followed by a lower one, rows below the first location aside: those
      no target at or above it can select. */
  ghost predicate NoLaterDip(t: seq<Row>) {
    forall i, j :: 0 <= i <= j < |t| ==> t[i].loc <= t[j].loc || t[i].loc <= t[0].loc
  }

  lemma ExcessCons(row: Row, t: seq<Row>, target: u64, k: nat)
    requires row.loc <= target && LastBeforeExcess(t, target, k)
    ensures LastBeforeExcess([row] + t, target, k + 1)
    ensures ([row] + t)[k + 1] == t[k]
  {
    assert forall i :: 0 < i <= |t| ==> ([row] + t)[i] == t[i - 1];
  }

  /** For every program: the run yields the row before the first excess, and
      reports the way decoding ended only when no row exceeds the target. */
  lemma {:induction false} RunFindsExcess(f: Factors, code: seq<Instr>, tail: Status, loc: u64, target: u64, st: Rules,
                                         initial: Rules) returns (k: nat)
    requires loc <= target
    ensures LastBeforeExcess(Table(f, code, loc, st, initial), target, k)
    ensures Run(f, code, tail, loc, target, st, initial).rules == Table(f, code, loc, st, initial)[k].rules
    ensures Run(f, code, tail, loc, target, st, initial).status
         == if k + 1 < |Table(f, code, loc, st, initial)| then Ok else tail
  {
    hide Wrap, ToSigned, Move, Apply;
    k := 0;
    if code != [] {
      MoveOrApply(f, code[0], loc, st, initial);
      var next := Move(f, code[0], loc);
      if !code[0].Moves() {
        k := RunFindsExcess(f, code[1..], tail, loc, target, Apply(f, code[0], st, initial), initial);
      } else if next <= target {
        var j := RunFindsExcess(f, code[1..], tail, next, target, st, initial);
        k := j + 1;
        ExcessCons(Row(loc, st), Table(f, code[1..], next, st, initial), target, j);
      }
    }
  }

  /** Stopping early is looking the target up in the finished table, whenever no row
      dips below an earlier one. */
  lemma RunIsTableLookup(f: Factors, code: seq<Instr>, tail: Status, loc: u64, target: u64, st: Rules, initial: Rules,
                         k: nat)
    requires loc <= target
    requires NoLaterDip(Table(f, code, loc, st, initial))
    requires LastRowFor(Table(f, code, loc, st, initial), target, k)
    ensures Run(f, code, tail, loc, target, st, initial).rules == Table(f, code, loc, st, initial)[k].rules
    ensures Run(f, code, tail, loc, target, st, initial).status
         == if k + 1 < |Table(f, code, loc, st, initial)| then Ok else tail
  {
    var t := Table(f, code, loc, st, initial);
    var j := RunFindsExcess(f, code, tail, loc, target, st, initial);
    SameRow(t, target, j, k);
  }

  lemma SameRow(t: seq<Row>, target: u64, k: nat, j: nat)
    requires NoLaterDip(t) && |t| >= 1 && t[0].loc <= target
    requires LastBeforeExcess(t, target, k) && LastRowFor(t, target, j)
    ensures k == j
  {
    assert forall i :: 0 <= i <= j ==> t[i].loc <= t[j].loc || t[i].loc <= t[0].loc;
    assert t[k].loc <= target;
  }

  /** The row at which the run stops is the row that the lookup selects, for every
      target at or above the first location, exactly when no row dips. */
  lemma StopIsLookupIffNoDip(t: seq<Row>)
    requires |t| >= 1
    ensures (forall target: u64, k: nat, j: nat ::
               t[0].loc <= target && LastBeforeExcess(t, target, k) && LastRowFor(t, target, j) ==> k == j)
       <==> NoLaterDip(t)
  {
    if NoLaterDip(t) {
      forall target: u64, k: nat, j: nat
        | t[0].loc <= target && LastBeforeExcess(t, target, k) && LastRowFor(t, target, j)
        ensures k == j
      {
        SameRow(t, target, k, j);
      }
    } else {
      var i, j :| 0 <= i <= j < |t| && t[i].loc > t[j].loc && t[i].loc > t[0].loc;
      var target := if t[j].loc > t[0].loc then t[j].loc else t[0].loc;
      var k := ExcessExists(t, target);
      var l := LookupExists(t, target);
      assert k < i && j <= l;
    }
  }

  /** No instruction moves the location back. */
  predicate GoesForward(f: Factors, code: seq<Instr>, loc: u64) {
    code != [] ==>
      loc <= Move(f, code[0], loc) && GoesForward(f, code[1..], Move(f, code[0], loc))
  }

  /** The locations of a table never decrease exactly when no instruction moves back. */
  lemma {:induction false} ForwardIffNonDecreasing(f: Factors, code: seq<Instr>, loc: u64, st: Rules, initial: Rules)
    ensures NonDecreasing(Table(f, code, loc, st, initial)) <==> GoesForward(f, code, loc)
  {
    hide Move, Apply;
    if code != [] {
      var next := Move(f, code[0], loc);
      MoveOrApply(f, code[0], loc, st, initial);
      if code[0].Moves() {
        ForwardIffNonDecreasing(f, code[1..], next, st, initial);
        NonDecreasingCons(Row(loc, st), Table(f, code[1..], next, st, initial));
      } else {
        ForwardIffNonDecreasing(f, code[1..], loc, Apply(f, code[0], st, initial), initial);
      }
    }
  }

  lemma NonDecreasingCons(row: Row, t: seq<Row>)
    requires t != []
    ensures NonDecreasing([row] + t) <==> row.loc <= t[0].loc && NonDecreasing(t)
  {
    var all := [row] + t;
    assert forall i :: 0 <= i < |t| ==> all[i + 1] == t[i];
    if NonDecreasing(all) {
      assert all[0].loc <= all[1].loc;
      forall i, j | 0 <= i <= j < |t| ensures t[i].loc <= t[j].loc {
        assert all[i + 1].loc <= all[j + 1].loc;
      }
    }
  }

  /** A program that never moves back runs as the lookup in its table, whatever the
      target. */
  lemma ForwardRunIsTableLookup(f: Factors, code: seq<Instr>, tail: Status, loc: u64, target: u64, st: Rules,
                                initial: Rules, k: nat)
    requires loc <= target && GoesForward(f, code, loc)
    requires LastRowFor(Table(f, code, loc, st, initial), target, k)
    ensures Run(f, code, tail, loc, target, st, initial)
         == Outcome(if k + 1 < |Table(f, code, loc, st, initial)| then Ok else tail,
                    Table(f, code, loc, st, initial)[k].rules)
  {
    hide Run, Table, GoesForward;
    ForwardIffNonDecreasing(f, code, loc, st, initial);
    RunIsTableLookup(f, code, tail, loc, target, st, initial, k);
  }

  /** The row before the first excess. */
  lemma {:induction false} ExcessExists(t: seq<Row>, target: u64) returns (k: nat)
    requires |t| >= 1 && t[0].loc <= target
    ensures LastBeforeExcess(t, target, k)
    decreases |t|
  {
    k := 0;
    while k + 1 < |t| && t[k + 1].loc <= target
      invariant k < |t| && forall j :: 0 <= j <= k ==> t[j].loc <= target
    {
      k := k + 1;
    }
  }

  /** A table always has such a row when the first location is in reach. */
  lemma {:induction false} LookupExists(t: seq<Row>, target: u64) returns (k: nat)
    requires |t| >= 1 && t[0].loc <= target
    ensures LastRowFor(t, target, k)
  {
    if t[|t| - 1].loc <= target {
      k := |t| - 1;
    } else {
      k := LookupExists(t[..|t| - 1], target);
    }
  }

  /** A table with a dip: a program that leaves and comes back is cut at its first
      excess, while the table has a later row, with other rules. */
  lemma BackwardProgramsDiffer(f: Factors)
    ensures var code := [SetLoc(20), DefCfaOffset(8), SetLoc(5)];
            var t := Table(f, code, 0, Reset(), Reset());
            && !NoLaterDip(t)
            && LastRowFor(t, 10, 2)
            && Run(f, code, Ok, 0, 10, Reset(), Reset()).rules != t[2].rules
  {
    var code := [SetLoc(20), DefCfaOffset(8), SetLoc(5)];
    var after := Reset().(cfaOffset := 8);
    assert code[1..] == [DefCfaOffset(8), SetLoc(5)] && code[1..][1..] == [SetLoc(5)] && code[1..][1..][1..] == [];
    assert Table(f, [SetLoc(5)], 20, after, Reset()) == [Row(20, after)] + Table(f, [], 5, after, Reset());
    assert Table(f, code[1..], 20, Reset(), Reset()) == Table(f, [SetLoc(5)], 20, after, Reset());
    var t := Table(f, code, 0, Reset(), Reset());
    assert t == [Row(0, Reset()), Row(20, after), Row(5, after)];
    assert t[1].loc > t[2].loc && t[1].loc > t[0].loc;
  }

  // ---------------------------------------------------------------------
  // How far a run gets

  /** Number of instructions executed before the stopping move (or all). */
  function Executed(f: Factors, code: seq<Instr>, loc: u64, target: u64): (n: nat)
    ensures n <= |code|
  {
    if code == [] then 0
    else
      var next := Move(f, code[0], loc);
      if code[0].Moves() && next > target then 0
      else 1 + Executed(f, code[1..], next, target)
  }

  /** Plain execution of a list of instructions, with no target. */
  function Fold(f: Factors, code: seq<Instr>, st: Rules, initial: Rules): Rules {
    if code == [] then st else Fold(f, code[1..], Apply(f, code[0], st, initial), initial)
  }

  lemma {:induction false} RunFoldsExecuted(f: Factors, code: seq<Instr>, tail: Status, loc: u64, target: u64,
                                           st: Rules, initial: Rules)
    ensures var n := Executed(f, code, loc, target);
            Run(f, code, tail, loc, target, st, initial)
            == Outcome(if n < |code| then Ok else tail, Fold(f, code[..n], st, initial))
  {
    if code != [] {
      var next := Move(f, code[0], loc);
      if !(code[0].Moves() && next > target) {
        var n := Executed(f, code, loc, target);
        RunFoldsExecuted(f, code[1..], tail, next, target, Apply(f, code[0], st, initial), initial);
        assert code[..n][1..] == code[1..][..n - 1];
      }
    }
  }

  /** A larger target never executes less, so the instructions run for the
      smaller one are a prefix of those run for the larger. */
  lemma {:induction false} ExecutedMonotone(f: Factors, code: seq<Instr>, loc: u64, low: u64, high: u64)
    requires low <= high
    ensures Executed(f, code, loc, low) <= Executed(f, code, loc, high)
    ensures code[..Executed(f, code, loc, low)] <= code[..Executed(f, code, loc, high)]
  {
    if code != [] {
      var next := Move(f, code[0], loc);
      if !(code[0].Moves() && next > low) {
        ExecutedMonotone(f, code[1..], next, low, high);
      }
    }
  }

  /** No location of the program lies in the interval (low, high]. */
  ghost predicate NoMoveBetween(t: seq<Row>, low: u64, high: u64) {
    forall j :: 0 <= j < |t| ==> !(low < t[j].loc <= high)
  }

  /** The rules are constant between two consecutive locations. */
  lemma {:induction false} ConstantBetweenMoves(f: Factors, code: seq<Instr>, tail: Status, loc: u64, low: u64,
                                               high: u64, st: Rules, initial: Rules)
    requires low <= high
    requires NoMoveBetween(Table(f, code, loc, st, initial), low, high)
    ensures Run(f, code, tail, loc, low, st, initial) == Run(f, code, tail, loc, high, st, initial)
  {
    if code != [] {
      var next := Move(f, code[0], loc);
      var t := Table(f, code, loc, st, initial);
      if code[0].Moves() {
        var u := Table(f, code[1..], next, st, initial);
        assert forall i :: 0 <= i < |u| ==> u[i] == t[i + 1];
        assert !(low < u[0].loc <= high);
        if next <= low {
          ConstantBetweenMoves(f, code[1..], tail, next, low, high, st, initial);
        }
      } else {
        ConstantBetweenMoves(f, code[1..], tail, loc, low, high, Apply(f, code[0], st, initial), initial);
      }
    }
  }

  /** A replay with the greatest target never stops early. */
  lemma {:induction false} GreatestTargetRunsAll(f: Factors, code: seq<Instr>, tail: Status, loc: u64, st: Rules,
                                                initial: Rules)
    ensures Run(f, code, tail, loc, U64_MAX, st, initial) == Outcome(tail, Fold(f, code, st, initial))
  {
    if code != [] {
      GreatestTargetRunsAll(f, code[1..], tail, Move(f, code[0], loc), Apply(f, code[0], st, initial), initial);
    }
  }

  /** Once a run has stopped inside `code`, nothing after `code` can matter. */
  lemma {:induction false} StopIgnoresRest(f: Factors, code: seq<Instr>, more: seq<Instr>, tail: Status, tail': Status,
                                          loc: u64, target: u64, st: Rules, initial: Rules)
    requires Executed(f, code, loc, target) < |code|
    ensures Run(f, code + more, tail', loc, target, st, initial) == Run(f, code, tail, loc, target, st, initial)
  {
    hide Move, Apply;
    var next := Move(f, code[0], loc);
    assert (code + more)[0] == code[0];
    if !(code[0].Moves() && next > target) {
      assert (code + more)[1..] == code[1..] + more;
      StopIgnoresRest(f, code[1..], more, tail, tail', next, target, Apply(f, code[0], st, initial), initial);
    }
  }

  /** No register is ever marked undefined by a program. */
  ghost predicate Defined(st: Rules) {
    forall r :: 0 <= r < SLOTS ==> !st.regs[r].Undefined?
  }

  lemma {:induction false} RunKeepsDefined(f: Factors, code: seq<Instr>, tail: Status, loc: u64, target: u64, st: Rules,
                                          initial: Rules)
    requires Defined(st) && Defined(initial)
    ensures Defined(Run(f, code, tail, loc, target, st, initial).rules)
  {
    if code != [] {
      RunKeepsDefined(f, code[1..], tail, Move(f, code[0], loc), target, Apply(f, code[0], st, initial), initial);
    }
  }
}
