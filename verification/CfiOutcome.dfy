// What evaluation yields, said of the written programs, the registers and the stack:
// which instructions count, what a byte that does not decode does, and every outcome.
module CfiOutcome {
  import opened Machine
  import opened Leb128
  import opened CfiProgram
  import opened CfiMachine
  import opened CfiMeaning
  import opened CfiSection
  import opened CfiTables
  import opened CfiEval

  ghost predicate AllFit(code: seq<Instr>, addressSize: byte) {
    forall i :: i in code ==> Encodable(i, addressSize)
  }

  /** The bytes end there, or with an opcode the code does not support and anything
      after it. */
  predicate EndsPlainly(tail: seq<byte>) {
    tail == [] || IsUnsupported(tail[0])
  }

  /** No rule set: no CFA, every register as it is. */
  ghost predicate IsBlank(st: Rules) {
    st.cfaReg == 0xffff && st.cfaOffset == 0 && forall r :: 0 <= r < 32 ==> st.regs[r] == SameValue
  }

  lemma PlainEnd(code: seq<Instr>, addressSize: byte, tail: seq<byte>)
    requires AllFit(code, addressSize) && EndsPlainly(tail)
    ensures Disassemble(EncodeAll(code, addressSize) + tail, addressSize)
         == Program(code, if tail == [] then Ok else NotImplemented)
  {
    hide Decode, EncodeAll;
    DisassembleEncoded(code, addressSize, tail);
    if tail != [] {
      DecodeFailsIff(tail, addressSize);
    }
    assert code + [] == code;
  }

  lemma CutEnd(code: seq<Instr>, addressSize: byte, tail: seq<byte>)
    requires AllFit(code, addressSize) && tail != [] && CutShort(tail, addressSize)
    ensures Disassemble(EncodeAll(code, addressSize) + tail, addressSize) == Program(code, BadFormat)
  {
    hide Decode, EncodeAll, CutShort;
    DisassembleEncoded(code, addressSize, tail);
    DecodeFailsIff(tail, addressSize);
    assert code + [] == code;
  }

  /** How a CIE's and an FDE's programs are written. */
  ghost predicate Written(cie: CieRecord, fde: FdeRecord, cieCode: seq<Instr>, cieTail: seq<byte>, fdeCode: seq<Instr>,
                          fdeTail: seq<byte>)
  {
    && AllFit(cieCode, cie.addressSize) && cie.instructions == EncodeAll(cieCode, cie.addressSize) + cieTail
    && AllFit(fdeCode, cie.addressSize) && fde.instructions == EncodeAll(fdeCode, cie.addressSize) + fdeTail
  }

  /** The row in force: the CIE's instructions all count, from a blank row, and give the
      defaults; on these the FDE's count up to the first that starts a row beyond the
      pc. Unsupported opcodes and what follows them count for nothing. */
  lemma RowMeaning(cie: CieRecord, fde: FdeRecord, cieCode: seq<Instr>, cieTail: seq<byte>, fdeCode: seq<Instr>,
                   fdeTail: seq<byte>, pc: u64)
    returns (blank: Rules, defaults: Rules, n: nat, locs: seq<u64>)
    requires Written(cie, fde, cieCode, cieTail, fdeCode, fdeTail) && EndsPlainly(cieTail) && EndsPlainly(fdeTail)
    ensures IsBlank(blank) && Leaves(cie.Factors(), cieCode, blank, blank, defaults)
    ensures Locations(cie.Factors(), fdeCode, fde.pcBegin, locs) && Stops(fdeCode, locs, pc, n)
    ensures Leaves(cie.Factors(), fdeCode[..n], defaults, defaults, RowAt(cie, fde, pc).rules)
    ensures RowAt(cie, fde, pc).status == Ok || RowAt(cie, fde, pc).status == NotImplemented
  {
    hide Disassemble, Run, Leaves, Locations, Stops, EncodeAll, Fold, Defaults;
    var f := cie.Factors();
    blank := Reset();
    PlainEnd(cieCode, cie.addressSize, cieTail);
    PlainEnd(fdeCode, cie.addressSize, fdeTail);
    DefaultsRunAll(cie, fde.pcBegin);
    defaults := Fold(f, cieCode, blank, blank);
    FoldLeaves(f, cieCode, blank, blank);
    var tail := if fdeTail == [] then Ok else NotImplemented;
    n, locs := RunMeaning(f, fdeCode, tail, fde.pcBegin, pc, defaults, defaults);
  }

  lemma SameRow(cie: CieRecord, fde: FdeRecord, cie': CieRecord, fde': FdeRecord, cieCode: seq<Instr>,
                cieTail: seq<byte>, fdeCode: seq<Instr>, fdeTail: seq<byte>, pc: u64)
    requires Written(cie, fde, cieCode, cieTail, fdeCode, fdeTail) && EndsPlainly(cieTail) && EndsPlainly(fdeTail)
    requires Written(cie', fde', cieCode, [], fdeCode, [])
    requires cie.Factors() == cie'.Factors() && fde.pcBegin == fde'.pcBegin
    ensures RowAt(cie, fde, pc).rules == RowAt(cie', fde', pc).rules
    ensures Usable(RowAt(cie, fde, pc).status) && Usable(RowAt(cie', fde', pc).status)
  {
    hide Disassemble, Run, EncodeAll, Fold, Defaults;
    var f := cie.Factors();
    PlainEnd(cieCode, cie.addressSize, cieTail);
    PlainEnd(fdeCode, cie.addressSize, fdeTail);
    PlainEnd(cieCode, cie.addressSize, []);
    PlainEnd(fdeCode, cie.addressSize, []);
    DefaultsRunAll(cie, fde.pcBegin);
    DefaultsRunAll(cie', fde.pcBegin);
    var d := Fold(f, cieCode, Reset(), Reset());
    RunFoldsExecuted(f, fdeCode, if fdeTail == [] then Ok else NotImplemented, fde.pcBegin, pc, d, d);
    RunFoldsExecuted(f, fdeCode, Ok, fde.pcBegin, pc, d, d);
  }

  /** An unsupported opcode merely ends its program: with it and anything after it, in
      the CIE or the FDE, evaluation does what it does without. */
  lemma UnsupportedOpcodeEnds(cie: CieRecord, fde: FdeRecord, cieCode: seq<Instr>, cieTail: seq<byte>,
                              fdeCode: seq<Instr>, fdeTail: seq<byte>, pc: u64, regs: Registers, reader: Reader,
                              before: Frame)
    requires cie.returnReg < 32
    requires Written(cie, fde, cieCode, cieTail, fdeCode, fdeTail) && EndsPlainly(cieTail) && EndsPlainly(fdeTail)
    ensures var cie' := cie.(instructions := EncodeAll(cieCode, cie.addressSize));
            var fde' := fde.(instructions := EncodeAll(fdeCode, cie.addressSize));
            && Unwind(cie, fde, pc, regs, reader) == Unwind(cie', fde', pc, regs, reader)
            && RegistersAfter(cie, fde, pc, regs, reader) == RegistersAfter(cie', fde', pc, regs, reader)
            && FrameAfter(cie, fde, pc, regs.regs, reader, before)
               == FrameAfter(cie', fde', pc, regs.regs, reader, before)
  {
    hide RowAt, FirstFault, FaultIndex, RestoredUpTo, EncodeAll;
    var cie' := cie.(instructions := EncodeAll(cieCode, cie.addressSize));
    var fde' := fde.(instructions := EncodeAll(fdeCode, cie.addressSize));
    assert cie'.instructions + [] == cie'.instructions && fde'.instructions + [] == fde'.instructions;
    SameRow(cie, fde, cie', fde', cieCode, cieTail, fdeCode, fdeTail, pc);
  }

  /** A malformed operand that is reached makes evaluation fail, and nothing is written:
      in the CIE always, in the FDE when all its locations are at or below the pc. */
  lemma CutOperandFails(cie: CieRecord, fde: FdeRecord, cieCode: seq<Instr>, cieTail: seq<byte>, fdeCode: seq<Instr>,
                        fdeTail: seq<byte>, locs: seq<u64>, pc: u64, regs: Registers, reader: Reader, before: Frame)
    requires cie.returnReg < 32 && Covers(fde, pc)
    requires Written(cie, fde, cieCode, cieTail, fdeCode, fdeTail)
    requires || (cieTail != [] && CutShort(cieTail, cie.addressSize))
             || (EndsPlainly(cieTail) && fdeTail != [] && CutShort(fdeTail, cie.addressSize)
                 && Locations(cie.Factors(), fdeCode, fde.pcBegin, locs)
                 && forall k :: 0 <= k < |locs| ==> locs[k] <= pc)
    ensures Unwind(cie, fde, pc, regs, reader) == Fail(BadFormat)
    ensures RegistersAfter(cie, fde, pc, regs, reader) == regs
    ensures FrameAfter(cie, fde, pc, regs.regs, reader, before) == before
  {
    hide Disassemble, Run, EncodeAll, Fold, Defaults, CutShort;
    var f := cie.Factors();
    DefaultsRunAll(cie, fde.pcBegin);
    if cieTail != [] && CutShort(cieTail, cie.addressSize) {
      CutEnd(cieCode, cie.addressSize, cieTail);
    } else {
      PlainEnd(cieCode, cie.addressSize, cieTail);
      CutEnd(fdeCode, cie.addressSize, fdeTail);
      var d := Fold(f, cieCode, Reset(), Reset());
      var n, locs' := RunMeaning(f, fdeCode, BadFormat, fde.pcBegin, pc, d, d);
      if n < |fdeCode| {
        LocationsUnique(f, fdeCode, fde.pcBegin, locs, locs', n + 1);
      }
    }
  }

  /** Past a stop it is not reached, and nothing changes. */
  lemma CutOperandAfterStop(cie: CieRecord, fde: FdeRecord, cieCode: seq<Instr>, cieTail: seq<byte>,
                            fdeCode: seq<Instr>, fdeTail: seq<byte>, locs: seq<u64>, k: nat, pc: u64)
    requires Written(cie, fde, cieCode, cieTail, fdeCode, fdeTail) && EndsPlainly(cieTail)
    requires Locations(cie.Factors(), fdeCode, fde.pcBegin, locs) && fde.pcBegin <= pc
    requires k < |locs| && locs[k] > pc
    ensures RowAt(cie, fde, pc) == RowAt(cie, fde.(instructions := EncodeAll(fdeCode, cie.addressSize)), pc)
    ensures RowAt(cie, fde, pc).status == Ok
  {
    hide Run, EncodeAll, Fold, Defaults, Disassemble;
    var f := cie.Factors();
    var bytes := EncodeAll(fdeCode, cie.addressSize);
    DefaultsRunAll(cie, fde.pcBegin);
    PlainEnd(cieCode, cie.addressSize, cieTail);
    PlainEnd(fdeCode, cie.addressSize, []);
    assert bytes + [] == bytes;
    var d := Fold(f, cieCode, Reset(), Reset());
    StopsBefore(f, fdeCode, fde.pcBegin, pc, locs, k);
    RunFoldsExecuted(f, fdeCode, Ok, fde.pcBegin, pc, d, d);
    BytesAfterStop(f, bytes, fdeTail, fde.pcBegin, pc, d, d);
  }

  lemma StopsBefore(f: Factors, code: seq<Instr>, loc: u64, target: u64, locs: seq<u64>, k: nat)
    requires Locations(f, code, loc, locs) && loc <= target && k < |locs| && locs[k] > target
    ensures Executed(f, code, loc, target) < |code|
  {
    var locs' := ExecutedStops(f, code, loc, target);
    LocationsUnique(f, code, loc, locs, locs', k);
    if Executed(f, code, loc, target) == |code| {
      NeverBeyond(f, code, locs', target, k);
    }
  }

  lemma {:induction false} NeverBeyond(f: Factors, code: seq<Instr>, locs: seq<u64>, target: u64, k: nat)
    requires |locs| == |code| + 1 && locs[0] <= target && Locations(f, code, locs[0], locs)
    requires Stops(code, locs, target, |code|) && k < |locs|
    ensures locs[k] <= target
  {
    if k > 0 {
      NeverBeyond(f, code, locs, target, k - 1);
      assert Leads(f, code[k - 1], locs[k - 1], locs[k]);
      assert !(StartsRow(code[k - 1]) && locs[k] > target);
    }
  }

  // ---------------------------------------------------------------------
  // Every outcome of evaluation

  /** The address of a register's stack slot. */
  function SlotOf(row: Rules, cfa: u64, r: nat): u64
    requires r < 32 && row.regs[r].AtOffset?
  {
    (cfa as int + row.regs[r].offset) % 0x1_0000_0000_0000_0000
  }

  /** The stack word that a register is restored from cannot be read. */
  predicate Lost(row: Rules, cfa: u64, reader: Reader, r: nat)
    requires r < 32
  {
    row.regs[r].AtOffset? && reader(SlotOf(row, cfa, r)).Fail?
  }

  /** For every row, register set and stack: which outcome evaluation has, and with
      which status it fails. */
  lemma EvalOutcome(cie: CieRecord, fde: FdeRecord, pc: u64, regs: Registers, reader: Reader) returns (cfa: u64)
    requires cie.returnReg < 32
    ensures var row, out := RowAt(cie, fde, pc), Unwind(cie, fde, pc, regs, reader);
            && Same64(cfa, (if row.rules.cfaReg < 32 then regs.regs[row.rules.cfaReg] as int else 0)
                           + row.rules.cfaOffset)
            && if !(fde.pcBegin <= pc && pc < fde.pcBegin + fde.pcRange
                    && fde.pcBegin + fde.pcRange < 0x1_0000_0000_0000_0000) then
                 out == Fail(InvalidArg)
               else if row.status != Ok && row.status != NotImplemented then out == Fail(row.status)
               else if row.rules.cfaReg == 0xffff then out == Fail(NotImplemented)
               else if Lost(row.rules, cfa, reader, cie.returnReg) then
                 out == Fail(reader(SlotOf(row.rules, cfa, cie.returnReg)).status)
               else if exists r :: 0 <= r < 32 && Lost(row.rules, cfa, reader, r) then
                 exists r :: 0 <= r < 32 && Lost(row.rules, cfa, reader, r)
                   && (forall q :: 0 <= q < r ==> !Lost(row.rules, cfa, reader, q))
                   && out == Fail(reader(SlotOf(row.rules, cfa, r)).status)
               else
                 && out.Pass?
                 && out.value.sp == cfa && out.value.pc == out.value.regs[cie.returnReg]
                 && forall r :: 0 <= r < 32 ==>
                      if row.rules.regs[r].AtOffset? then
                        reader(SlotOf(row.rules, cfa, r)) == Pass(out.value.regs[r])
                      else out.value.regs[r] == regs.regs[r]
  {
    hide RowAt, FaultIndex, Restore;
    var row := RowAt(cie, fde, pc).rules;
    cfa := CfaOf(row, regs.regs);
    RowIsDefined(cie, fde, pc);
    CoversIff(fde, pc);
    forall r | 0 <= r < 32
      ensures Restore(row.regs[r], regs.regs[r], cfa, reader)
           == if row.regs[r].AtOffset? then reader(SlotOf(row, cfa, r)) else Pass(regs.regs[r])
    {
      RestoreIs(row, regs.regs, cfa, reader, r);
    }
    assert row.regs[cie.returnReg] == row.regs[cie.returnReg];
    FaultIs(row, regs.regs, cfa, reader);
    var n := FaultIndex(row, regs.regs, cfa, reader, 0);
    assert n < 32 ==> Lost(row, cfa, reader, n);
  }

  /** Whether the frame is written, and with what: as soon as the return address is
      known. */
  lemma FrameOutcome(cie: CieRecord, fde: FdeRecord, pc: u64, regs: Registers, reader: Reader, before: Frame)
    returns (cfa: u64)
    requires cie.returnReg < 32
    ensures var row, after := RowAt(cie, fde, pc), FrameAfter(cie, fde, pc, regs.regs, reader, before);
            && Same64(cfa, (if row.rules.cfaReg < 32 then regs.regs[row.rules.cfaReg] as int else 0)
                           + row.rules.cfaOffset)
            && if fde.pcBegin <= pc && pc < fde.pcBegin + fde.pcRange
                  && fde.pcBegin + fde.pcRange < 0x1_0000_0000_0000_0000
                  && (row.status == Ok || row.status == NotImplemented)
                  && row.rules.cfaReg != 0xffff
                  && !Lost(row.rules, cfa, reader, cie.returnReg)
               then
                 after == Frame(after.ra, cfa, cfa, after.ra, 0, before.modulePath)
                 && if row.rules.regs[cie.returnReg].AtOffset? then
                      reader(SlotOf(row.rules, cfa, cie.returnReg)) == Pass(after.ra)
                    else after.ra == regs.regs[cie.returnReg]
               else after == before
  {
    hide RowAt, Restore;
    var row := RowAt(cie, fde, pc).rules;
    cfa := CfaOf(row, regs.regs);
    RowIsDefined(cie, fde, pc);
    CoversIff(fde, pc);
    RestoreIs(row, regs.regs, cfa, reader, cie.returnReg);
    assert row.regs[cie.returnReg] == row.regs[cie.returnReg];
  }

  lemma RestoreIs(row: Rules, regs: Bank, cfa: u64, reader: Reader, r: nat)
    requires r < 32 && Defined(row)
    ensures Restore(row.regs[r], regs[r], cfa, reader)
         == if row.regs[r].AtOffset? then reader(SlotOf(row, cfa, r)) else Pass(regs[r])
  {
  }

  lemma FaultIs(row: Rules, regs: Bank, cfa: u64, reader: Reader)
    ensures var n := FaultIndex(row, regs, cfa, reader, 0);
            && 0 <= n <= 32
            && (forall r :: 0 <= r < n ==> Restore(row.regs[r], regs[r], cfa, reader).Pass?)
            && (n < 32 ==> Restore(row.regs[n], regs[n], cfa, reader).Fail?)
  {
  }
}
