// A module and a stack on which an evaluation fails after it has written its frame:
// the return address can be read, another saved register cannot.
module LateFailure {
  import opened Machine
  import opened CfiProgram
  import opened CfiMachine
  import opened CfiSection
  import opened CfiTables
  import opened CfiEval
  import opened ModuleCache
  import opened Capture

  /** `def_cfa r7+16; offset r16 at cfa+8; offset r3 at cfa+16`, returning to r16. */
  function SavingCode(): seq<Instr> {
    [DefCfa(7, 16), OffsetReg(16, 1), OffsetReg(3, 2)]
  }

  function SavingCie(): CieRecord {
    CieRecord(1, 8, 16, 0, 8, 1, 0, [], EncodeAll(SavingCode(), 8))
  }

  function SavingFde(): FdeRecord {
    FdeRecord(0, 8, 20, 0x1000, 0x40, [])
  }

  function SavingModule(): Module {
    Tables([SavingCie()], [SavingFde()])
  }

  function SavingRow(): Rules {
    Reset().(cfaReg := 7, cfaOffset := 16, regs := Reset().regs[16 := AtOffset(8)][3 := AtOffset(16)])
  }

  lemma SavingRowAt(pc: u64)
    ensures RowAt(SavingCie(), SavingFde(), pc) == Outcome(Ok, SavingRow())
  {
    hide Disassemble, EncodeAll, Execute, Run, Table;
    var f, code := SavingCie().Factors(), SavingCode();
    DisassembleEncoded(code, 8, []);
    EmptyProgram(8);
    assert EncodeAll(code, 8) + [] == EncodeAll(code, 8) && code + [] == code;
    DefaultsRunAll(SavingCie(), 0x1000);
    SavingFold(f);
    ExecuteEnd(f, [], 0x1000, pc, SavingRow(), SavingRow(), Ok);
  }

  lemma SavingFold(f: Factors)
    requires f.dataAlign == 8
    ensures Fold(f, SavingCode(), Reset(), Reset()) == SavingRow()
  {
    var code, st := SavingCode(), Reset();
    var st1 := Apply(f, code[0], st, st);
    var st2 := Apply(f, code[1], st1, st);
    var st3 := Apply(f, code[2], st2, st);
    assert code[1..] == [code[1], code[2]] && code[1..][1..] == [code[2]] && code[1..][1..][1..] == [];
    assert Fold(f, [code[2]], st2, st) == Fold(f, [], st3, st) == st3;
    assert Fold(f, code[1..], st1, st) == Fold(f, [code[2]], st2, st);
    assert ToSigned(8) == 8 && ToSigned(16) == 16;
  }

  /** A stack of which only one word can be read. */
  function OneWord(slot: u64, word: u64): Reader {
    (address: u64) => if address == slot then Pass(word) else Fail(Io)
  }

  /** Where that CIE has the return address saved. */
  function ReturnSlot(regs: Registers): u64 {
    Wrap(regs.regs[7] as int + 24)
  }

  /** The return address can be read and r3 cannot: the capture counts the root frame
      only, and overwrites the slot after it. */
  lemma UncountedFrameIsWritten(request: Request, arch: Arch, word: u64, before: seq<Frame>)
    requires 0x1000 <= request.regs.pc < 0x1040 && WindowOf(request.regs, arch).Pass?
    requires 2 <= request.maxFrames <= |before|
    ensures var reader := OneWord(ReturnSlot(request.regs), word);
            && CaptureIn(SavingModule(), request, arch, Some(reader), Ok, before).written == 1
            && exists x :: SlotAfter(SavingModule(), request, arch, Some(reader), before, 1, x) != x
  {
    hide SavingModule, LateFaultAt, StepFrom, Follow, SlotAfter, CaptureIn, Covering, ReturnSlot;
    var m, reader := SavingModule(), OneWord(ReturnSlot(request.regs), word);
    FailsAtOnce(request.regs, word);
    FollowUnfolds(m, request.regs, reader, arch, request.maxFrames - 1, request.modulePath, []);
    LastFramePartialIff(m, request, arch, Some(reader), Ok, before);
    SlotPastEndIff(m, request, arch, Some(reader), before);
  }

  lemma FailsAtOnce(regs: Registers, word: u64)
    requires 0x1000 <= regs.pc < 0x1040
    ensures var m, reader := SavingModule(), OneWord(ReturnSlot(regs), word);
            Covering(m.fdes, regs.pc).Some? && StepFrom(m, regs, reader).Fail? && LateFaultAt(m, regs, reader)
  {
    hide RowAt, LateFault, Unwind, StepFrom, ReturnSlot;
    var m, reader := SavingModule(), OneWord(ReturnSlot(regs), word);
    SavingLateFault(regs, word);
    assert Covering(m.fdes, regs.pc) == Some(0);
    FailedEvalWritesFrameIff(m.cies[0], m.fdes[0], regs.pc, regs, reader);
    StepIsUnwind(m, regs, reader);
  }

  lemma StepIsUnwind(m: Module, regs: Registers, reader: Reader)
    requires Covering(m.fdes, regs.pc) == Some(0)
    ensures StepFrom(m, regs, reader) == Unwind(m.cies[m.fdes[0].cie], m.fdes[0], regs.pc, regs, reader)
  {
    hide Unwind;
  }

  lemma SavingLateFault(regs: Registers, word: u64)
    requires 0x1000 <= regs.pc < 0x1040
    ensures LateFault(SavingCie(), SavingFde(), regs.pc, regs.regs, OneWord(ReturnSlot(regs), word))
  {
    hide RowAt;
    SavingRowAt(regs.pc);
    var reader := OneWord(ReturnSlot(regs), word);
    var cfa := CfaOf(SavingRow(), regs.regs);
    WrapAdd(regs.regs[7] as int + 16, 8);
    assert Readable(SavingRow(), cfa, reader, 16);
    assert Wrap(cfa as int + 16) != Wrap(cfa as int + 8);
    assert !Readable(SavingRow(), cfa, reader, 3);
  }
}
