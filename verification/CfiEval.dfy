// Recovering a caller's registers: `dwunw_cfi_eval` of src/dwarf/cfi.c.
//
// The stack reader is a deterministic partial function from an address to the
// eight bytes there.
module CfiEval {
  import opened Machine
  import opened CfiProgram
  import opened CfiMachine
  import opened CfiSection
  import opened CfiTables

  type Bank = s: seq<u64> | |s| == 32 witness seq(32, _ => 0)

  /** The value of a `struct dwunw_regset`. */
  datatype Registers = Registers(arch: u16, version: u16, flags: u32, sp: u64, pc: u64, regs: Bank)

  /** A `struct dwunw_frame`. */
  datatype Frame = Frame(pc: u64, sp: u64, cfa: u64, ra: u64, flags: u32, modulePath: string)

  type Reader = u64 -> Result<u64>

  /** The register set a caller passes by pointer, overwritten in place. */
  class Regset {
    var arch: u16
    var version: u16
    var flags: u32
    var sp: u64
    var pc: u64
    const regs: array<u64>

    ghost predicate Valid()
      reads this
    {
      regs.Length == 32
    }

    ghost function View(): Registers
      reads this, regs
      requires Valid()
    {
      Registers(arch, version, flags, sp, pc, regs[..])
    }

    constructor (r: Registers)
      ensures Valid() && fresh(regs) && View() == r
    {
      arch, version, flags, sp, pc := r.arch, r.version, r.flags, r.sp, r.pc;
      regs := new u64[32](i requires 0 <= i < 32 => r.regs[i]);
      new;
      assert regs[..] == r.regs;
    }
  }

  /** The interpreter's failures that evaluation reports; an unsupported opcode
      merely ends the program. */
  predicate Usable(st: Status) {
    st == Ok || st == NotImplemented
  }

  /** The state a CIE's own program leaves. */
  function Defaults(cie: CieRecord, pcBegin: u64): Outcome {
    Execute(cie.Factors(), cie.instructions, pcBegin, U64_MAX, Reset(), Reset())
  }

  /** The row of the unwind table in force at `pc`. */
  function RowAt(cie: CieRecord, fde: FdeRecord, pc: u64): Outcome {
    var defaults := Defaults(cie, fde.pcBegin);
    if !Usable(defaults.status) then defaults
    else Execute(cie.Factors(), fde.instructions, fde.pcBegin, pc, defaults.rules, defaults.rules)
  }

  function RegValue(regs: Bank, reg: u16): u64 {
    if reg < 32 then regs[reg] else 0
  }

  /** The canonical frame address, from the registers before any is restored. */
  function CfaOf(row: Rules, regs: Bank): u64 {
    Wrap(RegValue(regs, row.cfaReg) + row.cfaOffset)
  }

  /** One register under its rule. */
  function Restore(rule: Rule, before: u64, cfa: u64, reader: Reader): Result<u64> {
    match rule
    case SameValue => Pass(before)
    case AtOffset(offset) => reader(Wrap(cfa + offset))
    case Undefined => Pass(0)
  }

  /** The first of registers `from..32` whose stack slot cannot be read; 32 if all can. */
  function FaultIndex(row: Rules, regs: Bank, cfa: u64, reader: Reader, from: nat): (n: nat)
    requires from <= 32
    ensures from <= n <= 32
    ensures forall r :: from <= r < n ==> Restore(row.regs[r], regs[r], cfa, reader).Pass?
    ensures n < 32 ==> Restore(row.regs[n], regs[n], cfa, reader).Fail?
    decreases 32 - from
  {
    if from == 32 || Restore(row.regs[from], regs[from], cfa, reader).Fail? then from
    else FaultIndex(row, regs, cfa, reader, from + 1)
  }

  /** The failure of the first slot that cannot be read, if any. */
  function FirstFault(row: Rules, regs: Bank, cfa: u64, reader: Reader): Status {
    var n := FaultIndex(row, regs, cfa, reader, 0);
    if n == 32 then Ok else Restore(row.regs[n], regs[n], cfa, reader).status
  }

  /** Registers `0..n` restored at once, each from the registers before; the others
      as they were. */
  function RestoredUpTo(row: Rules, regs: Bank, cfa: u64, reader: Reader, n: nat): Bank
    requires n <= 32
    requires forall r :: 0 <= r < n ==> Restore(row.regs[r], regs[r], cfa, reader).Pass?
  {
    seq(32, r requires 0 <= r < 32 =>
      if r < n then Restore(row.regs[r], regs[r], cfa, reader).value else regs[r])
  }

  /** What is known once the return address has been found. */
  datatype Found = Found(row: Rules, cfa: u64, ra: u64)

  /** The evaluation up to the return address, when the first results are written. */
  function Locate(cie: CieRecord, fde: FdeRecord, pc: u64, regs: Bank, reader: Reader): Result<Found>
    requires cie.returnReg < 32
  {
    if !Covers(fde, pc) then Fail(InvalidArg)
    else
      var row := RowAt(cie, fde, pc);
      if !Usable(row.status) then Fail(row.status)
      else if row.rules.cfaReg == NO_CFA_REG then Fail(NotImplemented)
      else
        var cfa := CfaOf(row.rules, regs);
        var rule := row.rules.regs[cie.returnReg];
        if rule.Undefined? then Fail(NotImplemented)
        else
          var ra :- Restore(rule, regs[cie.returnReg], cfa, reader);
          Pass(Found(row.rules, cfa, ra))
  }

  /** The caller's registers, or why they cannot be recovered. */
  function Unwind(cie: CieRecord, fde: FdeRecord, pc: u64, regs: Registers, reader: Reader): Result<Registers>
    requires cie.returnReg < 32
  {
    var found :- Locate(cie, fde, pc, regs.regs, reader);
    var fault := FirstFault(found.row, regs.regs, found.cfa, reader);
    if fault != Ok then Fail(fault)
    else Pass(regs.(sp := found.cfa, pc := found.ra,
                    regs := RestoredUpTo(found.row, regs.regs, found.cfa, reader, 32)))
  }

  /** The register set as evaluation leaves it: at a fault the registers before the
      faulting one are restored already, pc and sp not yet. */
  function RegistersAfter(cie: CieRecord, fde: FdeRecord, pc: u64, regs: Registers, reader: Reader): Registers
    requires cie.returnReg < 32
  {
    match Locate(cie, fde, pc, regs.regs, reader)
    case Fail(_) => regs
    case Pass(found) =>
      var n := FaultIndex(found.row, regs.regs, found.cfa, reader, 0);
      var bank := RestoredUpTo(found.row, regs.regs, found.cfa, reader, n);
      if n == 32 then regs.(sp := found.cfa, pc := found.ra, regs := bank) else regs.(regs := bank)
  }

  /** The frame as evaluation leaves it: written as soon as the return address is
      known, even when a register then fails to be restored. */
  function FrameAfter(cie: CieRecord, fde: FdeRecord, pc: u64, regs: Bank, reader: Reader, before: Frame): Frame
    requires cie.returnReg < 32
  {
    match Locate(cie, fde, pc, regs, reader)
    case Fail(_) => before
    case Pass(found) => before.(pc := found.ra, ra := found.ra, sp := found.cfa, cfa := found.cfa, flags := 0)
  }

  // ---------------------------------------------------------------------
  // What evaluation means

  /** No rule that evaluation can meet is undefined, so no register is zeroed. */
  lemma RowIsDefined(cie: CieRecord, fde: FdeRecord, pc: u64)
    ensures Defined(RowAt(cie, fde, pc).rules)
  {
    hide Run, Disassemble;
    var f := cie.Factors();
    var p := Disassemble(cie.instructions, f.addressSize);
    RunKeepsDefined(f, p.code, p.tail, fde.pcBegin, U64_MAX, Reset(), Reset());
    var d := Defaults(cie, fde.pcBegin).rules;
    var q := Disassemble(fde.instructions, f.addressSize);
    RunKeepsDefined(f, q.code, q.tail, fde.pcBegin, pc, d, d);
  }

  /** The defaults are the whole CIE program: its replay never stops early. */
  lemma DefaultsRunAll(cie: CieRecord, pcBegin: u64)
    ensures var p := Disassemble(cie.instructions, cie.addressSize);
            Defaults(cie, pcBegin) == Outcome(p.tail, Fold(cie.Factors(), p.code, Reset(), Reset()))
  {
    var p := Disassemble(cie.instructions, cie.addressSize);
    GreatestTargetRunsAll(cie.Factors(), p.code, p.tail, pcBegin, Reset(), Reset());
  }

  /** The row that evaluation uses is the row of the FDE's table, built on the CIE's
      defaults, that sections 6.4.1 and 6.4.3 of DWARF 5 select for the pc: the last
      one whose location does not exceed it. */
  lemma RowAtIsTableRow(cie: CieRecord, fde: FdeRecord, pc: u64, k: nat)
    requires Covers(fde, pc) && Usable(Defaults(cie, fde.pcBegin).status)
    requires var d := Defaults(cie, fde.pcBegin).rules;
             var t := Table(cie.Factors(), Disassemble(fde.instructions, cie.addressSize).code, fde.pcBegin, d, d);
             NoLaterDip(t) && LastRowFor(t, pc, k)
    ensures var d := Defaults(cie, fde.pcBegin).rules;
            var t := Table(cie.Factors(), Disassemble(fde.instructions, cie.addressSize).code, fde.pcBegin, d, d);
            RowAt(cie, fde, pc).rules == t[k].rules
  {
    hide Run, Table, Disassemble, Defaults;
    var d := Defaults(cie, fde.pcBegin).rules;
    var p := Disassemble(fde.instructions, cie.addressSize);
    RunIsTableLookup(cie.Factors(), p.code, p.tail, fde.pcBegin, pc, d, d, k);
  }

  /** Register `r` is either kept or its stack slot can be read. */
  predicate Readable(row: Rules, cfa: u64, reader: Reader, r: nat)
    requires r < 32
  {
    row.regs[r].AtOffset? ==> reader(Wrap(cfa + row.regs[r].offset)).Pass?
  }

  /** Evaluation succeeds exactly when the pc is covered, both programs are well
      formed, a CFA is defined, and every saved register can be read. */
  lemma UnwindSucceeds(cie: CieRecord, fde: FdeRecord, pc: u64, regs: Registers, reader: Reader)
    requires cie.returnReg < 32
    ensures Unwind(cie, fde, pc, regs, reader).Pass?
       <==> var row := RowAt(cie, fde, pc);
            && Covers(fde, pc)
            && Usable(row.status)
            && row.rules.cfaReg != NO_CFA_REG
            && forall r :: 0 <= r < 32 ==> Readable(row.rules, CfaOf(row.rules, regs.regs), reader, r)
  {
    hide RowAt, CfaOf, Restore, Readable;
    RowReadable(cie, fde, pc, regs.regs, reader);
    var row := RowAt(cie, fde, pc).rules;
    assert row.regs[cie.returnReg] == row.regs[cie.returnReg];
  }

  /** Under the rules evaluation can meet, a register fails to be restored exactly
      when its slot cannot be read. */
  lemma RowReadable(cie: CieRecord, fde: FdeRecord, pc: u64, regs: Bank, reader: Reader)
    ensures var row := RowAt(cie, fde, pc).rules;
            forall r :: 0 <= r < 32 ==>
              && !row.regs[r].Undefined?
              && (Restore(row.regs[r], regs[r], CfaOf(row, regs), reader).Pass?
                  <==> Readable(row, CfaOf(row, regs), reader, r))
  {
    hide RowAt, CfaOf;
    RowIsDefined(cie, fde, pc);
  }

  /** Evaluation gets past the return address and then meets a slot it cannot read. */
  ghost predicate LateFault(cie: CieRecord, fde: FdeRecord, pc: u64, regs: Bank, reader: Reader)
    requires cie.returnReg < 32
  {
    var row := RowAt(cie, fde, pc);
    var cfa := CfaOf(row.rules, regs);
    && Covers(fde, pc)
    && Usable(row.status)
    && row.rules.cfaReg != NO_CFA_REG
    && Readable(row.rules, cfa, reader, cie.returnReg)
    && exists r :: 0 <= r < 32 && !Readable(row.rules, cfa, reader, r)
  }

  /** A failing evaluation overwrites the frame exactly when the pc is covered, both
      programs are well formed, a CFA is defined, the return address can be read, and
      another register's slot cannot. */
  lemma FailedEvalWritesFrameIff(cie: CieRecord, fde: FdeRecord, pc: u64, regs: Registers, reader: Reader)
    requires cie.returnReg < 32
    ensures Unwind(cie, fde, pc, regs, reader).Fail?
              && (exists before :: FrameAfter(cie, fde, pc, regs.regs, reader, before) != before)
       <==> LateFault(cie, fde, pc, regs.regs, reader)
  {
    hide RowAt, CfaOf, Restore, Readable;
    RowReadable(cie, fde, pc, regs.regs, reader);
    UnwindSucceeds(cie, fde, pc, regs, reader);
    var row := RowAt(cie, fde, pc).rules;
    assert row.regs[cie.returnReg] == row.regs[cie.returnReg];
    var before := Frame(0, 0, 0, 0, 1, "");
    if LateFault(cie, fde, pc, regs.regs, reader) {
      assert FrameAfter(cie, fde, pc, regs.regs, reader, before).flags == 0;
    }
  }

  /** After a failed evaluation pc and sp are as before. The bank is too, unless the
      return address had been found: then the registers below the first unreadable slot
      hold their caller's values. */
  lemma FailedEvalRestoresPrefix(cie: CieRecord, fde: FdeRecord, pc: u64, regs: Registers, reader: Reader)
    returns (n: nat)
    requires cie.returnReg < 32
    requires Unwind(cie, fde, pc, regs, reader).Fail?
    ensures var row, after := RowAt(cie, fde, pc).rules, RegistersAfter(cie, fde, pc, regs, reader);
            var cfa := CfaOf(row, regs.regs);
            && after.pc == regs.pc && after.sp == regs.sp
            && (!LateFault(cie, fde, pc, regs.regs, reader) ==> n == 0)
            && n < 32
            && (forall r :: 0 <= r < n ==>
                  match row.regs[r]
                  case SameValue => after.regs[r] == regs.regs[r]
                  case AtOffset(offset) => reader(Wrap(cfa + offset)) == Pass(after.regs[r])
                  case Undefined => false)
            && (forall r :: n <= r < 32 ==> after.regs[r] == regs.regs[r])
            && (LateFault(cie, fde, pc, regs.regs, reader) ==>
                  !Readable(row, cfa, reader, n) && forall r :: 0 <= r < n ==> Readable(row, cfa, reader, r))
  {
    hide RowAt, CfaOf, Restore, Readable;
    RowReadable(cie, fde, pc, regs.regs, reader);
    var row := RowAt(cie, fde, pc).rules;
    assert row.regs[cie.returnReg] == row.regs[cie.returnReg];
    var found := Locate(cie, fde, pc, regs.regs, reader);
    if found.Fail? {
      n := 0;
    } else {
      n := FaultIndex(found.value.row, regs.regs, found.value.cfa, reader, 0);
      RestoredPrefix(row, regs.regs, CfaOf(row, regs.regs), reader, n);
    }
  }

  lemma RestoredPrefix(row: Rules, regs: Bank, cfa: u64, reader: Reader, n: nat)
    requires n <= 32 && Defined(row)
    requires forall r :: 0 <= r < n ==> Restore(row.regs[r], regs[r], cfa, reader).Pass?
    ensures var after := RestoredUpTo(row, regs, cfa, reader, n);
            && (forall r :: 0 <= r < n ==>
                  match row.regs[r]
                  case SameValue => after[r] == regs[r]
                  case AtOffset(offset) => reader(Wrap(cfa + offset)) == Pass(after[r])
                  case Undefined => false)
            && forall r :: n <= r < 32 ==> after[r] == regs[r]
  {
  }

  /** On success every register is either unchanged or the word its slot holds,
      the CFA coming from the registers before; and the four places that hold the
      return address agree. */
  lemma UnwindRestores(cie: CieRecord, fde: FdeRecord, pc: u64, regs: Registers, reader: Reader, before: Frame)
    requires cie.returnReg < 32
    requires Unwind(cie, fde, pc, regs, reader).Pass?
    ensures var row, caller := RowAt(cie, fde, pc).rules, Unwind(cie, fde, pc, regs, reader).value;
            var cfa := CfaOf(row, regs.regs);
            var frame := FrameAfter(cie, fde, pc, regs.regs, reader, before);
            && (forall r :: 0 <= r < 32 ==>
                  match row.regs[r]
                  case SameValue => caller.regs[r] == regs.regs[r]
                  case AtOffset(offset) => reader(Wrap(cfa + offset)) == Pass(caller.regs[r])
                  case Undefined => false)
            && caller.sp == cfa == frame.sp == frame.cfa
            && caller.regs[cie.returnReg] == caller.pc == frame.pc == frame.ra
            && caller.arch == regs.arch && caller.version == regs.version && caller.flags == regs.flags
            && frame.flags == 0 && frame.modulePath == before.modulePath
  {
    hide RowAt, CfaOf;
    RowIsDefined(cie, fde, pc);
    var row := RowAt(cie, fde, pc).rules;
    assert forall r :: 0 <= r < 32 ==> !row.regs[r].Undefined?;
  }

  // ---------------------------------------------------------------------
  // The evaluator

  lemma RestoresNext(row: Rules, before: Bank, cfa: u64, reader: Reader, n: nat)
    requires n < 32
    requires forall r :: 0 <= r < n ==> Restore(row.regs[r], before[r], cfa, reader).Pass?
    ensures var value := Restore(row.regs[n], before[n], cfa, reader);
            var now := RestoredUpTo(row, before, cfa, reader, n);
            && now[n] == before[n]
            && FaultIndex(row, before, cfa, reader, n)
               == (if value.Fail? then n else FaultIndex(row, before, cfa, reader, n + 1))
            && (value.Pass? ==> now[n := value.value] == RestoredUpTo(row, before, cfa, reader, n + 1))
  {
    hide Restore;
  }

  /** One pass of the register loop: one slot under its rule, by `apply_rule` if it is
      on the stack. */
  method RestoreSlot(rule: Rule, cfa: u64, reader: Reader, regs: Regset, reg: nat) returns (st: Status)
    requires regs.Valid() && reg < 32
    modifies regs.regs
    ensures regs.Valid()
    ensures match Restore(rule, old(regs.regs[reg]), cfa, reader)
            case Pass(v) => st == Ok && regs.regs[..] == old(regs.regs[..])[reg := v]
            case Fail(e) => st == e && regs.regs[..] == old(regs.regs[..])
  {
    st := Ok;
    match rule
    case SameValue =>
    case AtOffset(offset) =>
      var value := reader(Wrap(cfa + offset));
      if value.Fail? {
        return value.status;
      }
      regs.regs[reg] := value.value;
    case Undefined =>
      regs.regs[reg] := 0;
  }

  /** The loop over the register slots: restores in place, in order, up to the first
      fault. */
  method RestoreLoop(row: Rules, cfa: u64, reader: Reader, regs: Regset) returns (st: Status)
    requires regs.Valid()
    modifies regs.regs
    ensures regs.Valid()
    ensures st == FirstFault(row, old(regs.View()).regs, cfa, reader)
    ensures regs.regs[..] == RestoredUpTo(row, old(regs.View()).regs, cfa, reader,
                                          FaultIndex(row, old(regs.View()).regs, cfa, reader, 0))
  {
    ghost var before: Bank := regs.regs[..];
    assert before == RestoredUpTo(row, before, cfa, reader, 0) && FaultIndex(row, before, cfa, reader, 32) == 32;
    hide RestoredUpTo, FaultIndex, Restore;
    var reg := 0;
    while reg < 32
      invariant 0 <= reg <= 32
      invariant forall r :: 0 <= r < reg ==> Restore(row.regs[r], before[r], cfa, reader).Pass?
      invariant regs.regs[..] == RestoredUpTo(row, before, cfa, reader, reg)
      invariant FaultIndex(row, before, cfa, reader, 0) == FaultIndex(row, before, cfa, reader, reg)
    {
      RestoresNext(row, before, cfa, reader, reg);
      assert regs.regs[..][reg] == before[reg];
      st := RestoreSlot(row.regs[reg], cfa, reader, regs, reg);
      if st != Ok {
        return;
      }
      reg := reg + 1;
    }
    return Ok;
  }

  /** Both replays of the interpreter: the CIE's defaults, then the FDE up to `pc`. */
  method Replay(cie: CieRecord, fde: FdeRecord, pc: u64) returns (r: Outcome)
    ensures r == RowAt(cie, fde, pc)
  {
    hide Execute;
    var current := new CfaState();
    var initial := current.Snapshot();
    var st := ExecuteCfi(cie.Factors(), cie.instructions, fde.pcBegin, U64_MAX, current, initial);
    initial := current.Snapshot();
    if st == Ok || st == NotImplemented {
      st := ExecuteCfi(cie.Factors(), fde.instructions, fde.pcBegin, pc, current, initial);
    }
    var row := current.Snapshot();
    return Outcome(st, row);
  }

  /** `dwunw_cfi_eval` up to the return address; nothing is written yet. */
  method LocateReturn(cie: CieRecord, fde: FdeRecord, pc: u64, regs: Regset, reader: Reader) returns (r: Result<Found>)
    requires cie.returnReg < 32 && regs.Valid()
    ensures r == Locate(cie, fde, pc, regs.View().regs, reader)
  {
    hide RowAt;
    if pc < fde.pcBegin || pc >= Wrap(fde.pcBegin + fde.pcRange) {
      return Fail(InvalidArg);
    }
    var replayed := Replay(cie, fde, pc);
    if replayed.status != Ok && replayed.status != NotImplemented {
      return Fail(replayed.status);
    }
    var row := replayed.rules;
    if row.cfaReg == NO_CFA_REG {
      return Fail(NotImplemented);
    }
    var cfa := Wrap((if row.cfaReg < 32 then regs.regs[row.cfaReg] else 0) + row.cfaOffset);
    match row.regs[cie.returnReg]
    case SameValue =>
      return Pass(Found(row, cfa, regs.regs[cie.returnReg]));
    case AtOffset(offset) =>
      var value := reader(Wrap(cfa + offset));
      if value.Fail? {
        return Fail(value.status);
      }
      return Pass(Found(row, cfa, value.value));
    case Undefined =>
      return Fail(NotImplemented);
  }

  /** `dwunw_cfi_eval`; the frame is slot `k` of the caller's array. */
  method EvalFrame(cie: CieRecord, fde: FdeRecord, pc: u64, regs: Regset, reader: Reader, frames: array<Frame>, k: nat)
    returns (st: Status)
    requires cie.returnReg < 32
    requires regs.Valid() && k < frames.Length
    modifies regs, regs.regs, frames
    ensures regs.Valid()
    ensures forall i :: 0 <= i < frames.Length && i != k ==> frames[i] == old(frames[i])
    ensures frames[k] == FrameAfter(cie, fde, pc, old(regs.View()).regs, reader, old(frames[k]))
    ensures match Unwind(cie, fde, pc, old(regs.View()), reader)
            case Pass(caller) => st == Ok && regs.View() == caller
            case Fail(e) => st == e
    ensures regs.View() == RegistersAfter(cie, fde, pc, old(regs.View()), reader)
  {
    hide Locate, RestoredUpTo, Restore, Usable;
    var found := LocateReturn(cie, fde, pc, regs, reader);
    if found.Fail? {
      return found.status;
    }
    var Found(row, cfa, ra) := found.value;
    frames[k] := frames[k].(pc := ra, ra := ra, sp := cfa, cfa := cfa, flags := 0);
    st := RestoreLoop(row, cfa, reader, regs);
    if st == Ok {
      regs.pc, regs.sp := ra, cfa;
    }
  }
}
