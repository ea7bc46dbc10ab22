// The frame section of the repository's own unit test, tests/unit/test_cfi.c: one
// CIE with `def_cfa r7+16; offset r16 at cfa+8`, one FDE without instructions. It is
// one input on which the general theorems about sections, programs and evaluation
// meet their hypotheses.
module CfiFixture {
  import opened Machine
  import opened Leb128
  import opened GrowVector
  import opened CfiProgram
  import opened CfiMachine
  import opened CfiSection
  import opened CfiTables
  import opened CfiSerial
  import opened CfiEval
  import opened ModuleCache
  import opened Capture

  function FixtureCie(): CieRecord {
    CieRecord(1, 8, 16, 0, 8, 1, 0, [], [0x0c, 7, 16, 0x90, 1])
  }

  function FixtureFde(): FdeRecord {
    FdeRecord(0, 8, 18, 0x1000, 0x40, [])
  }

  function FixtureBytes(): seq<byte> {
    [0x0e, 0, 0, 0, 0xff, 0xff, 0xff, 0xff, 1, 0, 1, 8, 0x10, 0x0c, 7, 0x10, 0x90, 1]
    + [0x14, 0, 0, 0, 0, 0, 0, 0, 0, 0x10, 0, 0, 0, 0, 0, 0, 0x40, 0, 0, 0, 0, 0, 0, 0]
  }

  function FixtureEntries(): seq<Entry> {
    [Entry.Cie(1, [], 1, 8, 16, 8, 0, [], [0x0c, 7, 16, 0x90, 1]), Entry.Fde(0, 0x1000, 0x40, [], [])]
  }

  lemma FixedBytes(v: nat, size: nat)
    ensures size == 4 ==>
              EncodeFixed(v, size) == [v % 256, v / 256 % 256, v / 256 / 256 % 256, v / 256 / 256 / 256 % 256]
    ensures size == 8 && v < 0x1_0000 ==> EncodeFixed(v, size) == [v % 256, v / 256, 0, 0, 0, 0, 0, 0]
  {
    if size == 4 {
      assert EncodeFixed(v, 4) == [v % 256] + EncodeFixed(v / 256, 3);
      assert EncodeFixed(v / 256, 3) == [v / 256 % 256] + EncodeFixed(v / 256 / 256, 2);
      assert EncodeFixed(v / 256 / 256, 2) == [v / 256 / 256 % 256] + EncodeFixed(v / 256 / 256 / 256, 1);
    } else if size == 8 && v < 0x1_0000 {
      ZeroBytes();
      assert EncodeFixed(v, 8) == [v % 256] + EncodeFixed(v / 256, 7);
      assert EncodeFixed(v / 256, 7) == [v / 256 % 256] + EncodeFixed(v / 256 / 256, 6);
    }
  }

  lemma ZeroBytes()
    ensures EncodeFixed(0, 6) == [0, 0, 0, 0, 0, 0]
  {
    assert EncodeFixed(0, 6) == [0] + EncodeFixed(0, 5);
    assert EncodeFixed(0, 5) == [0] + EncodeFixed(0, 4);
    assert EncodeFixed(0, 4) == [0] + EncodeFixed(0, 3);
    assert EncodeFixed(0, 3) == [0] + EncodeFixed(0, 2);
    assert EncodeFixed(0, 2) == [0] + EncodeFixed(0, 1);
  }

  /** The section stands in .debug_frame, mapped anywhere. */
  function FixturePlace(host: nat): Place {
    Place(false, host)
  }

  /** The entries are written as exactly the test's bytes. */
  lemma FixtureIsWritten(host: nat)
    ensures AllWritable(FixtureEntries(), 0, EMPTY, FixturePlace(host))
    ensures Emit(FixtureEntries(), 0, EMPTY, FixturePlace(host)) == FixtureBytes()
    ensures Records(FixtureEntries(), 0, EMPTY, FixturePlace(host)) == Tables([FixtureCie()], [FixtureFde()])
  {
    var es, place := FixtureEntries(), FixturePlace(host);
    var cie, fde := es[0], es[1];
    CieBytes(host);
    FdeBytes(host);
    var t1, t2 := Recorded(cie, 0, EMPTY, place), Tables([FixtureCie()], [FixtureFde()]);
    assert t1 == Tables([FixtureCie()], []);
    FdeRecorded(t1, host);
    var b0, b1 := EntryBytes(cie, [], 0, place), EntryBytes(fde, t1.cies, 18, place);
    assert es[1..] == [fde] && [fde][1..] == [];
    hide EntryBytes, Recorded, Writable, FixtureCie, FixtureFde;
    assert AllWritable([], 18 + |b1|, t2, place);
    assert AllWritable([fde], 18, t1, place);
    assert Emit([fde], 18, t1, place) == b1 + Emit([], 18 + |b1|, t2, place);
    assert Emit(es, 0, EMPTY, place) == b0 + Emit([fde], 18, t1, place);
    assert Records(es, 0, EMPTY, place) == Records([fde], 18, t1, place) == Records([], 18 + |b1|, t2, place);
  }

  lemma FdeRecorded(t: Tables, host: nat)
    requires t == Tables([FixtureCie()], [])
    ensures Writable(FixtureEntries()[1], t.cies, 18)
    ensures Recorded(FixtureEntries()[1], 18, t, FixturePlace(host)) == Tables([FixtureCie()], [FixtureFde()])
  {
    assert CapacityAfter(1) == 8;
  }

  lemma CiePayload(host: nat)
    ensures Writable(FixtureEntries()[0], [], 0)
    ensures Payload(FixtureEntries()[0], [], 0, FixturePlace(host)) == [1, 0, 1, 8, 16, 0x0c, 7, 16, 0x90, 1]
  {
    assert EncodeUleb(1) == [1] && EncodeSleb(8) == [8] && EncodeUleb(16) == [16];
    hide EncodeUleb, EncodeSleb;
    assert HeadBytes(1, [], 1, 8, 16) == [1, 0, 1, 8, 16];
  }

  lemma CieBytes(host: nat)
    ensures Writable(FixtureEntries()[0], [], 0)
    ensures EntryBytes(FixtureEntries()[0], [], 0, FixturePlace(host))
         == [0x0e, 0, 0, 0, 0xff, 0xff, 0xff, 0xff, 1, 0, 1, 8, 0x10, 0x0c, 7, 0x10, 0x90, 1]
  {
    hide EncodeFixed, Payload, Writable;
    CiePayload(host);
    FixedBytes(14, 4);
    FixedBytes(0xffff_ffff, 4);
  }

  lemma FdePayload(host: nat)
    ensures Writable(FixtureEntries()[1], [FixtureCie()], 18)
    ensures Payload(FixtureEntries()[1], [FixtureCie()], 18, FixturePlace(host))
         == [0, 0x10, 0, 0, 0, 0, 0, 0, 0x40, 0, 0, 0, 0, 0, 0, 0]
  {
    hide EncodeFixed;
    FixedBytes(0x1000, 8);
    FixedBytes(0x40, 8);
    assert RawBytes(0, 0x1000) == EncodeFixed(0x1000, 8) && RawBytes(0, 0x40) == EncodeFixed(0x40, 8);
    assert DataBytes([], []) + [] == [];
  }

  lemma FdeBytes(host: nat)
    ensures Writable(FixtureEntries()[1], [FixtureCie()], 18)
    ensures EntryBytes(FixtureEntries()[1], [FixtureCie()], 18, FixturePlace(host))
         == [0x14, 0, 0, 0, 0, 0, 0, 0, 0, 0x10, 0, 0, 0, 0, 0, 0, 0x40, 0, 0, 0, 0, 0, 0, 0]
  {
    hide EncodeFixed, Payload, Writable;
    FdePayload(host);
    FixedBytes(20, 4);
    FixedBytes(0, 4);
  }

  /** Parsing the test's bytes gives its one CIE and its one FDE. */
  lemma FixtureParses(host: nat)
    ensures Walk(FixtureBytes(), 0, false, host, EMPTY) == Walked(Ok, Tables([FixtureCie()], [FixtureFde()]))
  {
    hide Walk;
    FixtureIsWritten(host);
    SectionRoundTrip(FixtureEntries(), [], FixturePlace(host));
    assert FixtureBytes() + [] == FixtureBytes();
  }

  lemma FixtureCode()
    ensures Disassemble(FixtureCie().instructions, 8) == Program([DefCfa(7, 16), OffsetReg(16, 1)], Ok)
    ensures Disassemble(FixtureFde().instructions, 8) == Program([], Ok)
  {
    var code := [DefCfa(7, 16), OffsetReg(16, 1)];
    assert Encode(code[0], 8) == [0x0c, 7, 16] by {
      assert EncodeUleb(7) == [7] && EncodeUleb(16) == [16];
    }
    assert Encode(code[1], 8) == [0x90, 1] by {
      assert EncodeUleb(1) == [1];
    }
    assert code[1..] == [code[1]] && [code[1]][1..] == [];
    assert EncodeAll([code[1]], 8) == [0x90, 1] + EncodeAll([], 8);
    assert EncodeAll(code, 8) == [0x0c, 7, 16] + EncodeAll([code[1]], 8);
    assert EncodeAll(code, 8) + [] == FixtureCie().instructions;
    DisassembleEncoded(code, 8, []);
    EmptyProgram(8);
  }

  function FixtureRow(): Rules {
    Reset().(cfaReg := 7, cfaOffset := 16, regs := Reset().regs[16 := AtOffset(8)])
  }

  lemma FixtureDefaults()
    ensures Defaults(FixtureCie(), 0x1000) == Outcome(Ok, FixtureRow())
  {
    hide Defaults, Disassemble;
    FixtureCode();
    DefaultsRunAll(FixtureCie(), 0x1000);
    var f := FixtureCie().Factors();
    var code := [DefCfa(7, 16), OffsetReg(16, 1)];
    assert code[1..] == [code[1]] && [code[1]][1..] == [];
    assert Fold(f, code, Reset(), Reset()) == Fold(f, [code[1]], Apply(f, code[0], Reset(), Reset()), Reset());
  }

  lemma FixtureRowAt(pc: u64)
    ensures RowAt(FixtureCie(), FixtureFde(), pc) == Outcome(Ok, FixtureRow())
  {
    hide Defaults, Execute, Disassemble, FixtureRow;
    FixtureCode();
    FixtureDefaults();
    ExecuteEnd(FixtureCie().Factors(), [], 0x1000, pc, FixtureRow(), FixtureRow(), Ok);
  }

  function FixtureCfa(regs: Registers): u64 {
    CfaOf(FixtureRow(), regs.regs)
  }

  /** What the test observes, for every register set in range and every stack: the
      CFA is r7 + 16, the return address is the word at CFA + 8. */
  lemma FixtureUnwinds(regs: Registers, reader: Reader)
    requires 0x1000 <= regs.pc < 0x1040
    ensures FixtureCfa(regs) == (regs.regs[7] as int + 16) % 0x1_0000_0000_0000_0000
    ensures Unwind(FixtureCie(), FixtureFde(), regs.pc, regs, reader)
         == match reader(Wrap(FixtureCfa(regs) + FixtureRow().regs[16].offset))
            case Pass(ra) => Pass(regs.(sp := FixtureCfa(regs), pc := ra, regs := regs.regs[16 := ra]))
            case Fail(st) => Fail(st)
    ensures FixtureRow().regs[16].offset == 8
  {
    hide RowAt, FirstFault, FaultIndex, RestoredUpTo;
    var cie, fde, row := FixtureCie(), FixtureFde(), FixtureRow();
    FixtureRowAt(regs.pc);
    UnwindSucceeds(cie, fde, regs.pc, regs, reader);
    assert row.regs[16] == AtOffset(8) && forall r :: 0 <= r < 32 && r != 16 ==> row.regs[r] == SameValue;
    if Unwind(cie, fde, regs.pc, regs, reader).Pass? {
      UnwindRestores(cie, fde, regs.pc, regs, reader, Frame(0, 0, 0, 0, 0, ""));
      var caller := Unwind(cie, fde, regs.pc, regs, reader).value;
      assert caller.regs == regs.regs[16 := caller.pc];
    }
  }

  function FixtureModule(): Module {
    Tables([FixtureCie()], [FixtureFde()])
  }

  /** The walk through the test's module over a stack of zeros finds one caller, at pc 0,
      which no FDE covers. */
  lemma FixtureWalk(regs: Registers, arch: Arch, budget: nat, path: string)
    requires 0x1000 <= regs.pc < 0x1040 && budget > 0 && KeepsValues(arch)
    ensures var t := Follow(FixtureModule(), regs, _ => Pass(0), arch, budget, path);
            && t.status == Ok && |t.frames| == 1
            && t.frames[0].pc == 0 && t.frames[0].flags == 0
            && Covering(FixtureModule().fdes, 0).None?
  {
    hide RowAt, Unwind, FixtureCfa;
    var m, reader: Reader := FixtureModule(), _ => Pass(0);
    FixtureUnwinds(regs, reader);
    assert Covering(m.fdes, regs.pc) == Some(0);
    var caller := StepFrom(m, regs, reader).value;
    assert caller.pc == 0 && arch.normalize(caller).pc == 0;
    assert !Covers(m.fdes[0], 0);
    var rest := Follow(m, arch.normalize(caller), reader, arch, budget - 1, path);
    assert rest == Trail([], Ok, arch.normalize(caller));
  }

  /** An FDE is missing and the last frame is not partial: `doc/api_usage.md` has it
      marked. */
  lemma MissingFdeIsNotMarked(request: Request, arch: Arch, before: seq<Frame>)
    requires 0x1000 <= request.regs.pc < 0x1040 && KeepsValues(arch) && WindowOf(request.regs, arch).Pass?
    requires 3 <= request.maxFrames <= |before|
    ensures var m := FixtureModule();
            var r := CaptureIn(m, request, arch, Some(_ => Pass(0)), Ok, before);
            && r.status == Ok && r.written == 2 && |r.frames| == |before|
            && r.frames[1].flags == 0 && Covering(m.fdes, r.frames[1].pc).None?
  {
    hide Follow, Filled, Covering, FixtureModule;
    var m, reader: Reader := FixtureModule(), _ => Pass(0);
    FixtureWalk(request.regs, arch, request.maxFrames - 1, request.modulePath);
    var t := WalkOf(request, m, Some(reader), arch);
    FilledShape(m, RootFrame(request, WindowOf(request.regs, arch).value), t, Some(reader), before);
  }
}
