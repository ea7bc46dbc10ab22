// What a run of call-frame instructions leaves, said of the instructions alone: which
// of them are executed, and for each part of the row the last one that sets it.
module CfiMeaning {
  import opened Machine
  import opened Leb128
  import opened CfiProgram
  import opened CfiMachine

  /** Two integers agree modulo 2^64. */
  predicate Same64(a: int, b: int) {
    (a - b) % 0x1_0000_0000_0000_0000 == 0
  }

  /** The instruction sets the register that the CFA is counted from. */
  predicate SetsBase(i: Instr) {
    i.DefCfa? || i.DefCfaRegister? || i.DefCfaSf?
  }

  /** The instruction sets the offset of the CFA. */
  predicate SetsOffset(i: Instr) {
    i.DefCfa? || i.DefCfaOffset? || i.DefCfaSf? || i.DefCfaOffsetSf?
  }

  /** The instruction sets the rule of register `r`. */
  predicate Names(i: Instr, r: nat) {
    match i
    case OffsetReg(reg, _) => reg == r
    case OffsetExtended(reg, _) => reg == r
    case RestoreReg(reg) => reg == r
    case RestoreExtended(reg) => reg == r
    case _ => false
  }

  /** The instruction starts a new row. */
  predicate StartsRow(i: Instr) {
    i.Advance? || i.SetLoc? || i.Advance1? || i.Advance2? || i.Advance4?
  }

  /** The location after an instruction at `from`: the operand of a set_loc, a factored
      delta further, or the same. */
  predicate Leads(f: Factors, i: Instr, from: u64, to: u64) {
    match i
    case SetLoc(loc) => to == loc
    case Advance(delta) => Same64(to, from + delta * f.codeAlign)
    case Advance1(delta) => Same64(to, from + delta * f.codeAlign)
    case Advance2(delta) => Same64(to, from + delta * f.codeAlign)
    case Advance4(delta) => Same64(to, from + delta * f.codeAlign)
    case _ => to == from
  }

  /** The locations before each instruction and after the last. */
  ghost predicate Locations(f: Factors, code: seq<Instr>, loc: u64, locs: seq<u64>) {
    && |locs| == |code| + 1
    && locs[0] == loc
    && forall i :: 0 <= i < |code| ==> Leads(f, code[i], locs[i], locs[i + 1])
  }

  /** The first `n` instructions are those executed for `target`: the next one, if any,
      is the first to start a row beyond it. */
  ghost predicate Stops(code: seq<Instr>, locs: seq<u64>, target: u64, n: nat)
    requires |locs| == |code| + 1
  {
    && n <= |code|
    && (forall i :: 0 <= i < n ==> !(StartsRow(code[i]) && locs[i + 1] > target))
    && (n < |code| ==> StartsRow(code[n]) && locs[n + 1] > target)
  }

  ghost predicate LastBase(code: seq<Instr>, k: nat) {
    k < |code| && SetsBase(code[k]) && forall j :: k < j < |code| ==> !SetsBase(code[j])
  }

  ghost predicate LastOffset(code: seq<Instr>, k: nat) {
    k < |code| && SetsOffset(code[k]) && forall j :: k < j < |code| ==> !SetsOffset(code[j])
  }

  ghost predicate LastNaming(code: seq<Instr>, r: nat, k: nat) {
    k < |code| && Names(code[k], r) && forall j :: k < j < |code| ==> !Names(code[j], r)
  }

  /** The CFA register is the operand of the last instruction that has one. */
  ghost predicate BaseLeft(code: seq<Instr>, st: Rules, out: Rules) {
    && ((forall j :: 0 <= j < |code| ==> !SetsBase(code[j])) ==> out.cfaReg == st.cfaReg)
    && forall k: nat :: LastBase(code, k) ==> out.cfaReg == code[k].wideReg % 0x1_0000
  }

  /** The CFA offset is that of the last instruction with one, signed ones factored. */
  ghost predicate OffsetLeft(f: Factors, code: seq<Instr>, st: Rules, out: Rules) {
    && ((forall j :: 0 <= j < |code| ==> !SetsOffset(code[j])) ==> out.cfaOffset == st.cfaOffset)
    && forall k: nat :: LastOffset(code, k) ==> OffsetBy(f, code[k], out.cfaOffset)
  }

  predicate OffsetBy(f: Factors, i: Instr, offset: i64) {
    match i
    case DefCfa(_, operand) => Same64(offset, operand)
    case DefCfaOffset(operand) => Same64(offset, operand)
    case DefCfaSf(_, factored) => Same64(offset, factored * f.dataAlign)
    case DefCfaOffsetSf(factored) => Same64(offset, factored * f.dataAlign)
    case _ => false
  }

  /** Each register's rule is that of the last instruction naming it: saved at a factored
      offset, or the initial rule again. */
  ghost predicate RulesLeft(f: Factors, code: seq<Instr>, st: Rules, initial: Rules, out: Rules) {
    forall r :: 0 <= r < 32 ==>
      && ((forall j :: 0 <= j < |code| ==> !Names(code[j], r)) ==> out.regs[r] == st.regs[r])
      && forall k: nat :: LastNaming(code, r, k) ==>
           RuleBy(f, code[k], initial.regs[r], out.regs[r])
  }

  predicate RuleBy(f: Factors, i: Instr, initial: Rule, rule: Rule) {
    match i
    case OffsetReg(_, offset) => SavedAt(rule, offset * f.dataAlign)
    case OffsetExtended(_, offset) => SavedAt(rule, offset * f.dataAlign)
    case RestoreReg(_) => rule == initial
    case RestoreExtended(_) => rule == initial
    case _ => false
  }

  predicate SavedAt(rule: Rule, offset: int) {
    rule.AtOffset? && Same64(rule.offset, offset)
  }

  /** What the instructions, all executed, leave of the row `st`. */
  ghost predicate Leaves(f: Factors, code: seq<Instr>, st: Rules, initial: Rules, out: Rules) {
    BaseLeft(code, st, out) && OffsetLeft(f, code, st, out) && RulesLeft(f, code, st, initial, out)
  }

  // ---------------------------------------------------------------------
  // The interpreter does just that

  lemma SignedIsSame(x: int)
    ensures Same64(ToSigned(x), x)
  {
  }

  lemma WrapIsSame(x: int)
    ensures Same64(Wrap(x), x)
  {
  }

  lemma {:induction false} FoldSnoc(f: Factors, code: seq<Instr>, i: Instr, st: Rules, initial: Rules)
    ensures Fold(f, code + [i], st, initial) == Apply(f, i, Fold(f, code, st, initial), initial)
    decreases |code|
  {
    hide Apply;
    if code == [] {
      assert (code + [i])[1..] == [];
    } else {
      assert (code + [i])[1..] == code[1..] + [i];
      FoldSnoc(f, code[1..], i, Apply(f, code[0], st, initial), initial);
    }
  }

  lemma BaseSet(f: Factors, i: Instr, initial: Rules, mid: Rules)
    ensures Apply(f, i, mid, initial).cfaReg == if SetsBase(i) then i.wideReg % 0x1_0000 else mid.cfaReg
  {
  }

  lemma BaseSnoc(f: Factors, code: seq<Instr>, i: Instr, st: Rules, initial: Rules, mid: Rules)
    requires BaseLeft(code, st, mid)
    ensures BaseLeft(code + [i], st, Apply(f, i, mid, initial))
  {
    hide Apply;
    BaseSet(f, i, initial, mid);
    var all := code + [i];
    assert all[|code|] == i && forall j :: 0 <= j < |code| ==> all[j] == code[j];
    if !SetsBase(i) {
      forall k: nat | LastBase(all, k) ensures LastBase(code, k) {
      }
    }
  }

  lemma OffsetSet(f: Factors, i: Instr, initial: Rules, mid: Rules)
    ensures var out := Apply(f, i, mid, initial).cfaOffset;
            if SetsOffset(i) then OffsetBy(f, i, out) else out == mid.cfaOffset
  {
    if SetsOffset(i) {
      SignedIsSame(if i.DefCfa? || i.DefCfaOffset? then i.offset else i.factored * f.dataAlign);
    }
  }

  lemma OffsetSnoc(f: Factors, code: seq<Instr>, i: Instr, st: Rules, initial: Rules, mid: Rules)
    requires OffsetLeft(f, code, st, mid)
    ensures OffsetLeft(f, code + [i], st, Apply(f, i, mid, initial))
  {
    hide Apply, SetsOffset, OffsetBy;
    OffsetSet(f, i, initial, mid);
    var all := code + [i];
    assert all[|code|] == i && forall j :: 0 <= j < |code| ==> all[j] == code[j];
    if !SetsOffset(i) {
      forall k: nat | LastOffset(all, k) ensures LastOffset(code, k) {
      }
    }
  }

  lemma RuleSet(f: Factors, i: Instr, initial: Rules, mid: Rules, r: nat)
    requires r < 32
    ensures var out := Apply(f, i, mid, initial).regs[r];
            if Names(i, r) then RuleBy(f, i, initial.regs[r], out) else out == mid.regs[r]
  {
    if i.OffsetReg? || i.OffsetExtended? {
      SignedIsSame(i.offset * f.dataAlign);
    }
  }

  lemma RulesSnoc(f: Factors, code: seq<Instr>, i: Instr, st: Rules, initial: Rules, mid: Rules)
    requires RulesLeft(f, code, st, initial, mid)
    ensures RulesLeft(f, code + [i], st, initial, Apply(f, i, mid, initial))
  {
    hide Apply, Names, RuleBy;
    var all, out := code + [i], Apply(f, i, mid, initial);
    assert all[|code|] == i && forall j :: 0 <= j < |code| ==> all[j] == code[j];
    forall r | 0 <= r < 32
      ensures (forall j :: 0 <= j < |all| ==> !Names(all[j], r)) ==> out.regs[r] == st.regs[r]
      ensures forall k: nat :: LastNaming(all, r, k) ==> RuleBy(f, all[k], initial.regs[r], out.regs[r])
    {
      RuleSet(f, i, initial, mid, r);
      if !Names(i, r) {
        forall k: nat | LastNaming(all, r, k) ensures LastNaming(code, r, k) {
        }
      }
    }
  }

  lemma NothingLeaves(f: Factors, st: Rules, initial: Rules)
    ensures Leaves(f, [], st, initial, st)
  {
  }

  /** Executing a list leaves what its last writers say. */
  lemma {:induction false} FoldLeaves(f: Factors, code: seq<Instr>, st: Rules, initial: Rules)
    ensures Leaves(f, code, st, initial, Fold(f, code, st, initial))
    decreases |code|
  {
    hide Apply, BaseLeft, OffsetLeft, RulesLeft;
    if code == [] {
      NothingLeaves(f, st, initial);
    } else {
      var before, i := code[..|code| - 1], code[|code| - 1];
      assert code == before + [i];
      FoldLeaves(f, before, st, initial);
      var mid := Fold(f, before, st, initial);
      FoldSnoc(f, before, i, st, initial);
      BaseSnoc(f, before, i, st, initial, mid);
      OffsetSnoc(f, before, i, st, initial, mid);
      RulesSnoc(f, before, i, st, initial, mid);
    }
  }

  lemma MoveLeads(f: Factors, i: Instr, loc: u64)
    ensures Leads(f, i, loc, Move(f, i, loc))
    ensures i.Moves() <==> StartsRow(i)
  {
    if i.Advance? {
      WrapIsSame(loc + i.delta * f.codeAlign);
    } else if i.Advance1? || i.Advance2? || i.Advance4? {
      WrapIsSame(loc + i.wide * f.codeAlign);
    }
  }

  lemma LocationsCons(f: Factors, code: seq<Instr>, loc: u64, later: seq<u64>)
    requires code != [] && later != [] && Leads(f, code[0], loc, later[0])
    requires Locations(f, code[1..], later[0], later)
    ensures Locations(f, code, loc, [loc] + later)
  {
    hide Leads;
    var locs, rest := [loc] + later, code[1..];
    forall i | 0 <= i < |code| ensures Leads(f, code[i], locs[i], locs[i + 1]) {
      if i > 0 {
        assert Leads(f, rest[i - 1], later[i - 1], later[i]);
      }
    }
  }

  lemma StopsCons(code: seq<Instr>, loc: u64, later: seq<u64>, target: u64, n: nat)
    requires code != [] && |later| == |code|
    requires Stops(code[1..], later, target, n)
    requires !(StartsRow(code[0]) && later[0] > target)
    ensures Stops(code, [loc] + later, target, n + 1)
  {
    hide StartsRow;
    var locs, rest := [loc] + later, code[1..];
    forall i | 0 <= i < n + 1 ensures !(StartsRow(code[i]) && locs[i + 1] > target) {
      if i > 0 {
        assert !(StartsRow(rest[i - 1]) && later[i] > target);
      }
    }
    assert n + 1 < |code| ==> code[n + 1] == rest[n];
  }

  lemma {:induction false} ExecutedStops(f: Factors, code: seq<Instr>, loc: u64, target: u64) returns (locs: seq<u64>)
    ensures Locations(f, code, loc, locs)
    ensures Stops(code, locs, target, Executed(f, code, loc, target))
    decreases |code|
  {
    hide Move, Leads, StartsRow, Locations, Stops;
    if code == [] {
      locs := [loc];
      NoInstructions(f, loc, target);
    } else {
      var next := Move(f, code[0], loc);
      MoveLeads(f, code[0], loc);
      var later := ExecutedStops(f, code[1..], next, target);
      LocationsStart(f, code[1..], next, later);
      locs := [loc] + later;
      LocationsCons(f, code, loc, later);
      if code[0].Moves() && next > target {
        StopsFirst(code, locs, target);
      } else {
        StopsCons(code, loc, later, target, Executed(f, code[1..], next, target));
      }
    }
  }

  lemma NoInstructions(f: Factors, loc: u64, target: u64)
    ensures Locations(f, [], loc, [loc]) && Stops([], [loc], target, 0)
  {
  }

  lemma LocationsStart(f: Factors, code: seq<Instr>, loc: u64, locs: seq<u64>)
    requires Locations(f, code, loc, locs)
    ensures |locs| == |code| + 1 && locs[0] == loc
  {
  }

  lemma StopsFirst(code: seq<Instr>, locs: seq<u64>, target: u64)
    requires code != [] && |locs| == |code| + 1 && StartsRow(code[0]) && locs[1] > target
    ensures Stops(code, locs, target, 0)
  {
  }

  lemma SameUnique(x: int, a: u64, b: u64)
    requires Same64(a, x) && Same64(b, x)
    ensures a == b
  {
  }

  lemma LeadsUnique(f: Factors, i: Instr, from: u64, a: u64, b: u64)
    requires Leads(f, i, from, a) && Leads(f, i, from, b)
    ensures a == b
  {
    hide Same64;
    if i.Advance? {
      SameUnique(from + i.delta * f.codeAlign, a, b);
    } else if i.Advance1? || i.Advance2? || i.Advance4? {
      SameUnique(from + i.wide * f.codeAlign, a, b);
    }
  }

  /** The locations are fixed by the list. */
  lemma {:induction false} LocationsUnique(f: Factors, code: seq<Instr>, loc: u64, a: seq<u64>, b: seq<u64>, k: nat)
    requires Locations(f, code, loc, a) && Locations(f, code, loc, b) && k <= |code|
    ensures a[k] == b[k]
  {
    hide Leads;
    if k > 0 {
      LocationsUnique(f, code, loc, a, b, k - 1);
      assert Leads(f, code[k - 1], a[k - 1], a[k]) && Leads(f, code[k - 1], b[k - 1], b[k]);
      LeadsUnique(f, code[k - 1], a[k - 1], a[k], b[k]);
    }
  }

  /** For every list, target and row: the run executes the instructions before the first
      one that starts a row beyond the target, and leaves what their last writers say. */
  lemma RunMeaning(f: Factors, code: seq<Instr>, tail: Status, loc: u64, target: u64, st: Rules, initial: Rules)
    returns (n: nat, locs: seq<u64>)
    ensures Locations(f, code, loc, locs) && Stops(code, locs, target, n)
    ensures var out := Run(f, code, tail, loc, target, st, initial);
            && Leaves(f, code[..n], st, initial, out.rules)
            && out.status == if n < |code| then Ok else tail
  {
    hide Apply, Move, Leaves;
    n := Executed(f, code, loc, target);
    locs := ExecutedStops(f, code, loc, target);
    RunFoldsExecuted(f, code, tail, loc, target, st, initial);
    FoldLeaves(f, code[..n], st, initial);
  }

  /** The same of the interpreter on bytes: the encoding of a list. */
  lemma ExecuteMeaning(f: Factors, code: seq<Instr>, loc: u64, target: u64, st: Rules, initial: Rules)
    returns (n: nat, locs: seq<u64>)
    requires forall i :: i in code ==> Encodable(i, f.addressSize)
    ensures Locations(f, code, loc, locs) && Stops(code, locs, target, n)
    ensures var out := Execute(f, EncodeAll(code, f.addressSize), loc, target, st, initial);
            out.status == Ok && Leaves(f, code[..n], st, initial, out.rules)
  {
    hide Run, Leaves, Locations, Stops;
    ExecuteEncoded(f, code, loc, target, st, initial);
    n, locs := RunMeaning(f, code, Ok, loc, target, st, initial);
  }
}
