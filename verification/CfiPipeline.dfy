// From written instructions to unwinding: the sections, the parser, the decoder
// and the early-stopping interpreter together select rows of the table that the
// written instruction lists unroll to.
module CfiPipeline {
  import opened Machine
  import opened GrowVector
  import opened CfiProgram
  import opened CfiMachine
  import opened CfiMeaning
  import opened CfiSection
  import opened CfiTables
  import opened CfiSerial
  import opened CfiEval
  import opened ModuleCache
  import CfiOutcome

  /** A written section of given kind and place, with its terminator, that has a CIE as
      its j-th and an FDE of that CIE as its k-th entry. */
  ghost predicate IsPair(es: seq<Entry>, tail: seq<byte>, place: Place, j: nat, k: nat) {
    && AllWritable(es, 0, EMPTY, place) && |Emit(es, 0, EMPTY, place)| < CIE_ID && Terminates(tail)
    && j < |es| && k < |es| && es[j].Cie? && es[k].Fde?
    && es[k].parent == CiesIn(es[..j])
  }

  /** The bytes of an address in a CIE's programs. */
  function AddressSize(cie: Entry, place: Place): byte
    requires cie.Cie?
  {
    if HasSizes(cie.version, place) then cie.addressSize else 8
  }

  /** What parsing makes of the section. */
  function Parsed(es: seq<Entry>, tail: seq<byte>, place: Place): Tables
    requires AllWritable(es, 0, EMPTY, place)
  {
    Walk(Emit(es, 0, EMPTY, place) + tail, 0, place.isEh, place.host, EMPTY).tables
  }

  /** The parsed records of the pair, found by the FDE's rank: its own fields, its
      location as its CIE encodes it, and its CIE's. */
  lemma ParsedPair(es: seq<Entry>, tail: seq<byte>, place: Place, j: nat, k: nat)
    requires IsPair(es, tail, place, j, k)
    ensures var t, i := Parsed(es, tail, place), FdesIn(es[..k]);
            && i < |t.fdes| && t.fdes[i].cie < |t.cies|
            && var fde, cie := t.fdes[i], t.cies[t.fdes[i].cie];
               && RawFits(cie.ptrEncoding, es[k].begin)
               && fde.pcBegin
                  == Located(cie.ptrEncoding, es[k].begin, place.host + Start(es, 0, EMPTY, place, k) + 8)
               && fde.pcRange == es[k].range && fde.instructions == es[k].instructions
               && cie.instructions == es[j].instructions && cie.returnReg == es[j].returnReg % 0x100
               && (HasData(es[j].augmentation) ==> LeadingRs(es[j].augmentation[1..]) <= |es[j].augData|)
               && cie.ptrEncoding == EncodingOf(es[j].augmentation, es[j].augData)
               && cie.Factors() == Factors(es[j].codeAlign, es[j].dataAlign, AddressSize(es[j], place))
  {
    hide Walk, Emit, Records, AllWritable, Start, RawFits, Located, CapacityAfter;
    SectionRoundTrip(es, tail, place);
    RecordOf(es, 0, EMPTY, place, j);
    RecordOf(es, 0, EMPTY, place, k);
  }

  /** For every written section, every FDE in it and every pc it covers: when no row
      of the FDE's table dips below an earlier one, evaluation works with the last row
      at or below the pc of the table that the written instructions unroll to, starting
      from the rules that the CIE's instructions leave. The code reaches those
      instructions through a pointer that leads into the table exactly when all CIEs fit
      the storage of those before the FDE. */
  lemma WrittenProgramsUnwindByTable(es: seq<Entry>, tail: seq<byte>, place: Place, j: nat, k: nat, cieCode: seq<Instr>,
                                     fdeCode: seq<Instr>, begin: u64, pc: u64, row: nat)
    requires IsPair(es, tail, place, j, k)
    requires CfiOutcome.AllFit(cieCode, AddressSize(es[j], place))
    requires CfiOutcome.AllFit(fdeCode, AddressSize(es[j], place))
    requires es[j].instructions == EncodeAll(cieCode, AddressSize(es[j], place))
    requires es[k].instructions == EncodeAll(fdeCode, AddressSize(es[j], place))
    requires begin <= pc && HasBegin(es, tail, place, k, begin)
    requires var f := Factors(es[j].codeAlign, es[j].dataAlign, AddressSize(es[j], place));
             var defaults := Fold(f, cieCode, Reset(), Reset());
             var t := Table(f, fdeCode, begin, defaults, defaults);
             NoLaterDip(t) && LastRowFor(t, pc, row)
    ensures var t, i := Parsed(es, tail, place), FdesIn(es[..k]);
            && i < |t.fdes| && t.fdes[i].cie < |t.cies|
            && (PointsIntoTable(t, t.fdes[i]) <==> CiesIn(es) <= CapacityAfter(CiesIn(es[..k])))
            && var f := Factors(es[j].codeAlign, es[j].dataAlign, AddressSize(es[j], place));
               var defaults := Fold(f, cieCode, Reset(), Reset());
               RowAt(t.cies[t.fdes[i].cie], t.fdes[i], pc)
               == Outcome(Ok, Table(f, fdeCode, begin, defaults, defaults)[row].rules)
  {
    hide Walk, Emit, AllWritable, CapacityAfter, Fold, Table, Disassemble, EncodeAll, NoLaterDip, LastRowFor, Run;
    hide RawFits, Located, Start, CiesIn, FdesIn;
    ParsedPair(es, tail, place, j, k);
    PointerSurvivesIff(es, tail, place, k);
    var t := Parsed(es, tail, place);
    var fde := t.fdes[FdesIn(es[..k])];
    var cie := t.cies[fde.cie];
    var f := cie.Factors();
    WholeProgram(cieCode, cie.addressSize);
    WholeProgram(fdeCode, cie.addressSize);
    DefaultsRunAll(cie, fde.pcBegin);
    var defaults := Fold(f, cieCode, Reset(), Reset());
    RunIsTableLookup(f, fdeCode, Ok, fde.pcBegin, pc, defaults, defaults, row);
  }

  /** The k-th entry, an FDE, is parsed to begin at `begin`. */
  ghost predicate HasBegin(es: seq<Entry>, tail: seq<byte>, place: Place, k: nat, begin: u64)
    requires AllWritable(es, 0, EMPTY, place) && k < |es|
  {
    var t, i := Parsed(es, tail, place), FdesIn(es[..k]);
    i < |t.fdes| && t.fdes[i].pcBegin == begin
  }

  lemma WholeProgram(code: seq<Instr>, addressSize: byte)
    requires CfiOutcome.AllFit(code, addressSize)
    ensures Disassemble(EncodeAll(code, addressSize), addressSize) == Program(code, Ok)
  {
    CfiOutcome.PlainEnd(code, addressSize, []);
    assert EncodeAll(code, addressSize) + [] == EncodeAll(code, addressSize);
  }

  /** The same without the interpreter's own notions, and for programs that may end with
      an unsupported opcode: the row is left by the CIE's instructions, all of them, and
      then by the FDE's up to the first that starts a row beyond the pc. */
  lemma WrittenRowMeaning(es: seq<Entry>, tail: seq<byte>, place: Place, j: nat, k: nat, cieCode: seq<Instr>,
                          cieTail: seq<byte>, fdeCode: seq<Instr>, fdeTail: seq<byte>, pc: u64)
    returns (blank: Rules, defaults: Rules, n: nat, locs: seq<u64>)
    requires IsPair(es, tail, place, j, k)
    requires CfiOutcome.AllFit(cieCode, AddressSize(es[j], place))
    requires CfiOutcome.AllFit(fdeCode, AddressSize(es[j], place))
    requires es[j].instructions == EncodeAll(cieCode, AddressSize(es[j], place)) + cieTail
    requires es[k].instructions == EncodeAll(fdeCode, AddressSize(es[j], place)) + fdeTail
    requires CfiOutcome.EndsPlainly(cieTail) && CfiOutcome.EndsPlainly(fdeTail)
    ensures CfiOutcome.IsBlank(blank)
    ensures var t, i := Parsed(es, tail, place), FdesIn(es[..k]);
            && i < |t.fdes| && t.fdes[i].cie < |t.cies|
            && var f := Factors(es[j].codeAlign, es[j].dataAlign, AddressSize(es[j], place));
               && Leaves(f, cieCode, blank, blank, defaults)
               && Locations(f, fdeCode, t.fdes[i].pcBegin, locs) && Stops(fdeCode, locs, pc, n)
               && Leaves(f, fdeCode[..n], defaults, defaults, RowAt(t.cies[t.fdes[i].cie], t.fdes[i], pc).rules)
  {
    hide Walk, Emit, AllWritable, CapacityAfter, EncodeAll, RawFits, Located, Start, CiesIn, FdesIn, RowAt;
    hide Leaves, Locations, Stops;
    ParsedPair(es, tail, place, j, k);
    var t := Parsed(es, tail, place);
    var fde := t.fdes[FdesIn(es[..k])];
    blank, defaults, n, locs := CfiOutcome.RowMeaning(t.cies[fde.cie], fde, cieCode, cieTail, fdeCode, fdeTail, pc);
  }

  /** The return registers, cut to a byte, are among those evaluation has room for, and
      all CIEs fit the storage of those before each FDE. */
  ghost predicate Loadable(es: seq<Entry>) {
    && (forall k :: 0 <= k < |es| && es[k].Cie? ==> es[k].returnReg % 0x100 < 32)
    && (forall k :: 0 <= k < |es| && es[k].Fde? ==> CiesIn(es) <= CapacityAfter(CiesIn(es[..k])))
  }

  /** A written section makes a module whose evaluation stays inside the register set and
      the table exactly when it is loadable. */
  lemma WrittenModuleIff(es: seq<Entry>, tail: seq<byte>, place: Place)
    requires AllWritable(es, 0, EMPTY, place) && |Emit(es, 0, EMPTY, place)| < CIE_ID && Terminates(tail)
    ensures IsModule(Parsed(es, tail, place)) <==> Loadable(es)
  {
    hide Walk, Emit, Records, AllWritable, Start, CapacityAfter, CiesIn, FdesIn, Linked, PointsIntoTable;
    hide RawFits, Located;
    var t := Parsed(es, tail, place);
    NoneLinked();
    WalkExtends(Emit(es, 0, EMPTY, place) + tail, 0, place.isEh, place.host, EMPTY);
    SectionRoundTrip(es, tail, place);
    RecordsCount(es, 0, EMPTY, place);
    forall k | 0 <= k < |es| && es[k].Cie?
      ensures CiesIn(es[..k]) < |t.cies| && t.cies[CiesIn(es[..k])].returnReg == es[k].returnReg % 0x100
    {
      RecordOf(es, 0, EMPTY, place, k);
    }
    forall k | 0 <= k < |es| && es[k].Fde?
      ensures FdesIn(es[..k]) < |t.fdes|
      ensures PointsIntoTable(t, t.fdes[FdesIn(es[..k])]) <==> CiesIn(es) <= CapacityAfter(CiesIn(es[..k]))
    {
      PointerSurvivesIff(es, tail, place, k);
    }
    if Loadable(es) {
      forall i | 0 <= i < |t.cies| ensures t.cies[i].returnReg < 32 {
        var k := CieOfRank(es, i);
      }
      forall i | 0 <= i < |t.fdes| ensures PointsIntoTable(t, t.fdes[i]) {
        var k := FdeOfRank(es, i);
      }
    }
  }

  lemma NoneLinked()
    ensures Linked(EMPTY)
  {
  }
}
