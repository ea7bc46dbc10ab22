// Which tables a module gets from its two frame sections.
module CfiIndex {
  import opened Machine
  import opened Leb128
  import opened GrowVector
  import opened CfiSection
  import opened CfiTables
  import opened CfiSerial

  /** The walk of .eh_frame, from empty tables. */
  function EhWalk(sections: Sections): Walked {
    Walk(sections.ehFrame.bytes, 0, true, sections.ehFrame.host, EMPTY)
  }

  /** The walk of .debug_frame, from the tables that .eh_frame gave. */
  function DebugWalk(sections: Sections): Walked {
    Walk(sections.debugFrame.bytes, 0, false, sections.debugFrame.host, EhWalk(sections).tables)
  }

  /** Building passes exactly when both walks do and some FDE was found, with the tables
      of both; otherwise it fails as the first walk that does, or for want of an FDE. */
  lemma BuildOutcome(sections: Sections)
    ensures var out, eh, debug := Build(sections), EhWalk(sections), DebugWalk(sections);
            && (out.Pass? <==> eh.status == Ok && debug.status == Ok && |debug.tables.fdes| > 0)
            && (out.Pass? ==> out.value == debug.tables)
            && (out.Fail? ==>
                  if eh.status != Ok then out.status == eh.status
                  else if debug.status != Ok then out.status == debug.status
                  else out.status == NoDebugData)
  {
    hide Walk;
  }

  /** Indexing keeps what both sections give, leaves the module empty when either is
      malformed or neither has an FDE, and fails only where a walk leaves its bytes. */
  lemma IndexOutcome(sections: Sections)
    ensures var out, eh, debug := IndexTables(sections), EhWalk(sections), DebugWalk(sections);
            if eh.status == Unspecified || (eh.status == Ok && debug.status == Unspecified) then
              out == Fail(Unspecified)
            else if eh.status == Ok && debug.status == Ok && |debug.tables.fdes| > 0 then out == Pass(debug.tables)
            else out == Pass(Tables([], []))
  {
    hide Walk;
    BuildOutcome(sections);
  }

  /** When .eh_frame is malformed the module is empty, whatever .debug_frame holds. */
  lemma BadEhFrameEmpties(sections: Sections)
    requires EhWalk(sections).status == BadFormat || EhWalk(sections).status == NotImplemented
    ensures IndexTables(sections) == Pass(Tables([], []))
  {
    hide Walk;
    IndexOutcome(sections);
  }

  lemma EmptySection(isEh: bool, host: nat, t: Tables)
    ensures Walk([], 0, isEh, host, t) == Walked(Ok, t)
  {
  }

  /** A written .debug_frame alone, with an FDE, gives its records. */
  lemma DebugFrameAlone(es: seq<Entry>, tail: seq<byte>, host: nat, other: nat)
    requires AllWritable(es, 0, EMPTY, Place(false, host)) && |Emit(es, 0, EMPTY, Place(false, host))| < CIE_ID
    requires Terminates(tail) && FdesIn(es) > 0
    ensures var place := Place(false, host);
            IndexTables(Sections(Section([], other), Section(Emit(es, 0, EMPTY, place) + tail, host)))
            == Pass(Records(es, 0, EMPTY, place))
  {
    hide Walk, Emit, Records, AllWritable, FdesIn, CiesIn;
    var place := Place(false, host);
    var sections := Sections(Section([], other), Section(Emit(es, 0, EMPTY, place) + tail, host));
    EmptySection(true, other, EMPTY);
    SectionRoundTrip(es, tail, place);
    RecordsCount(es, 0, EMPTY, place);
    IndexOutcome(sections);
  }

  /** So does a written .eh_frame alone. */
  lemma EhFrameAlone(es: seq<Entry>, tail: seq<byte>, host: nat, other: nat)
    requires AllWritable(es, 0, EMPTY, Place(true, host)) && |Emit(es, 0, EMPTY, Place(true, host))| < CIE_ID
    requires Terminates(tail) && FdesIn(es) > 0
    ensures var place := Place(true, host);
            IndexTables(Sections(Section(Emit(es, 0, EMPTY, place) + tail, host), Section([], other)))
            == Pass(Records(es, 0, EMPTY, place))
  {
    hide Walk, Emit, Records, AllWritable, FdesIn, CiesIn;
    var place := Place(true, host);
    var sections := Sections(Section(Emit(es, 0, EMPTY, place) + tail, host), Section([], other));
    SectionRoundTrip(es, tail, place);
    EmptySection(false, other, Records(es, 0, EMPTY, place));
    RecordsCount(es, 0, EMPTY, place);
    IndexOutcome(sections);
  }

  /** An .eh_frame section whose first FDE is laid out as the Linux Standard Base says
      leaves the module empty, whatever follows and whatever .debug_frame holds. */
  lemma StandardEhFrameEmpties(es: seq<Entry>, parent: nat, payload: seq<byte>, rest: seq<byte>, host: nat,
                               debug: Section)
    requires AllWritable(es, 0, EMPTY, Place(true, host)) && |Emit(es, 0, EMPTY, Place(true, host))| + 8 < CIE_ID
    requires |payload| + 4 < CIE_ID
    requires parent < |Records(es, 0, EMPTY, Place(true, host)).cies|
    ensures var place := Place(true, host);
            var written := Emit(es, 0, EMPTY, place);
            var cie := Records(es, 0, EMPTY, place).cies[parent];
            && cie.offset < |written|
            && var bytes := written + (StandardFde(|written|, cie.offset, payload) + rest);
               IndexTables(Sections(Section(bytes, host), debug)) == Pass(Tables([], []))
  {
    hide Walk, Emit, Records, AllWritable, StandardFde;
    var place := Place(true, host);
    var written, cies := Emit(es, 0, EMPTY, place), Records(es, 0, EMPTY, place).cies;
    StandardEhFdeFails(es, parent, payload, rest, host);
    var bytes := written + (StandardFde(|written|, cies[parent].offset, payload) + rest);
    BadEhFrameEmpties(Sections(Section(bytes, host), debug));
  }

  // ---------------------------------------------------------------------
  // CIEs of both sections in one table

  /** A .debug_frame FDE is linked to its own CIE exactly when no .eh_frame CIE stands at
      the same offset. */
  lemma OwnCieIffNoneBefore(before: seq<CieRecord>, own: seq<CieRecord>, i: nat)
    requires i < |own| && forall j, k :: 0 <= j < k < |own| ==> own[j].offset < own[k].offset
    ensures FindCie(before + own, own[i].offset) == Some(|before| + i)
       <==> forall j :: 0 <= j < |before| ==> before[j].offset != own[i].offset
  {
    var all := before + own;
    assert all[|before| + i] == own[i];
    var r := FindCie(all, own[i].offset);
    assert forall j :: 0 <= j < |before| ==> all[j] == before[j];
    assert forall j :: 0 <= j < |own| ==> all[|before| + j] == own[j];
  }

  /** The bytes of a CIE and its FDE in .debug_frame. */
  function PairBytes(): (s: seq<byte>)
    ensures AllWritable([BARE, LINKED], 0, EMPTY, DEBUG)
  {
    PairWrites();
    Emit([BARE, LINKED], 0, EMPTY, DEBUG)
  }

  lemma PairWrites()
    ensures AllWritable([BARE, LINKED], 0, EMPTY, DEBUG)
    ensures var t1 := Recorded(BARE, 0, EMPTY, DEBUG);
            && Writable(LINKED, t1.cies, 13) && |EntryBytes(BARE, [], 0, DEBUG)| == 13
            && |EntryBytes(LINKED, t1.cies, 13, DEBUG)| == 24
            && Emit([BARE, LINKED], 0, EMPTY, DEBUG)
               == EntryBytes(BARE, [], 0, DEBUG) + EntryBytes(LINKED, t1.cies, 13, DEBUG)
  {
    BareSize([], 0);
    var t1 := Recorded(BARE, 0, EMPTY, DEBUG);
    LinkedSize(t1.cies, 13);
    var t2 := Recorded(LINKED, 13, t1, DEBUG);
    hide EntryBytes, Writable, Recorded;
    assert [BARE, LINKED][1..] == [LINKED] && [LINKED][1..] == [];
    var b := EntryBytes(LINKED, t1.cies, 13, DEBUG);
    assert AllWritable([LINKED], 13, t1, DEBUG) && Emit([LINKED], 13, t1, DEBUG) == b + Emit([], 37, t2, DEBUG) == b;
  }

  /** The bare CIE's record at the start of a section, which is the same in both. */
  function BareCie(): CieRecord {
    CieOf(BARE, 0, DEBUG)
  }

  /** Read behind a CIE of .eh_frame at its own CIE's offset, the FDE is linked to that. */
  lemma PairTakesFirst()
    ensures Walk(PairBytes(), 0, false, 0, Tables([BareCie()], []))
         == Walked(Ok, Tables([BareCie(), BareCie()], [FdeRecord(0, 8, 13, 0, 0, [])]))
  {
    PairWrites();
    var t := Tables([BareCie()], []);
    var b0, b1 := EntryBytes(BARE, [], 0, DEBUG), EntryBytes(LINKED, [BareCie()], 13, DEBUG);
    var s := b0 + b1;
    FirstStep(s, b0, b1, t);
    SecondStep(s, b0, b1, Tables([BareCie(), BareCie()], []));
    hide EntryBytes, EntryAt, Word;
    assert PairBytes() == s;
  }

  lemma FirstStep(s: seq<byte>, b0: seq<byte>, b1: seq<byte>, t: Tables)
    requires s == b0 + b1 && b0 == EntryBytes(BARE, [], 0, DEBUG) && |b0| == 13 && t == Tables([BareCie()], [])
    ensures Word(s, 0) == 9 && EntryAt(s, 0, 9, false, 0, t) == Pass(Tables([BareCie(), BareCie()], []))
  {
    hide EntryAt, Word, EncodeFixed, EncodeUleb, EncodeSleb;
    assert EntryBytes(BARE, t.cies, 0, DEBUG) == b0;
    assert [] + b0 + b1 == s;
    EntryReadsAs([], BARE, b1, t, DEBUG, 0);
    assert EntryLinked(BARE, 0, t, DEBUG, 0) == Tables([BareCie(), BareCie()], []);
  }

  lemma SecondStep(s: seq<byte>, b0: seq<byte>, b1: seq<byte>, t: Tables)
    requires s == b0 + b1 && |b0| == 13 && |b1| == 24
    requires Writable(LINKED, [BareCie()], 13) && b1 == EntryBytes(LINKED, [BareCie()], 13, DEBUG)
    requires t == Tables([BareCie(), BareCie()], [])
    ensures Word(s, 13) == 20
    ensures EntryAt(s, 13, 20, false, 0, t) == Pass(Tables(t.cies, [FdeRecord(0, 8, 13, 0, 0, [])]))
  {
    hide EntryAt, Word, EntryBytes, Writable, EntryLinked, BareCie;
    SecondEntry(t);
    assert b0 + b1 + [] == s;
    EntryReadsAs(b0, LINKED, [], t, DEBUG, 0);
  }

  /** With two CIEs at offset 0 the FDE has the same bytes, and leads to the first. */
  lemma SecondEntry(t: Tables)
    requires t == Tables([BareCie(), BareCie()], [])
    ensures Writable(LINKED, [BareCie()], 13) && Writable(LINKED, t.cies, 13)
    ensures EntryBytes(LINKED, t.cies, 13, DEBUG) == EntryBytes(LINKED, [BareCie()], 13, DEBUG)
    ensures LeadsTo(LINKED, 13, t, DEBUG, 0)
    ensures EntryLinked(LINKED, 13, t, DEBUG, 0) == Tables(t.cies, [FdeRecord(0, 8, 13, 0, 0, [])])
  {
    hide EncodeFixed;
    assert CapacityAfter(2) == 8 by {
      assert CapacityAfter(1) == 8;
    }
  }

  /** One CIE in .eh_frame, and a CIE of its own with an FDE in .debug_frame: the FDE is
      linked to the first. */
  lemma DebugFdeTakesEhCie()
    ensures AllWritable([BARE], 0, EMPTY, Place(true, 0))
    ensures IndexTables(Sections(Section(Emit([BARE], 0, EMPTY, Place(true, 0)), 0), Section(PairBytes(), 0)))
         == Pass(Tables([BareCie(), BareCie()], [FdeRecord(0, 8, 13, 0, 0, [])]))
  {
    var place := Place(true, 0);
    OneCie(place);
    PairTakesFirst();
    hide Walk, Emit, Records, AllWritable, PairBytes, BareCie;
    var bytes := Emit([BARE], 0, EMPTY, place);
    SectionRoundTrip([BARE], [], place);
    assert bytes + [] == bytes;
    IndexOutcome(Sections(Section(bytes, 0), Section(PairBytes(), 0)));
  }

  lemma OneCie(place: Place)
    requires place == Place(true, 0)
    ensures AllWritable([BARE], 0, EMPTY, place) && |Emit([BARE], 0, EMPTY, place)| < CIE_ID
    ensures Records([BARE], 0, EMPTY, place) == Tables([BareCie()], [])
  {
    hide EncodeFixed;
    assert EncodeUleb(0) == [0] && EncodeSleb(0) == [0];
    hide EncodeUleb, EncodeSleb;
    assert |EntryBytes(BARE, [], 0, place)| == 13;
    hide EntryBytes;
    assert [BARE][1..] == [];
    var t := Recorded(BARE, 0, EMPTY, place);
    assert t == Tables([BareCie()], []);
    assert AllWritable([], 13, t, place);
    assert Emit([BARE], 0, EMPTY, place) == EntryBytes(BARE, [], 0, place) + Emit([], 13, t, place);
    assert Records([BARE], 0, EMPTY, place) == Records([], 13, t, place);
  }
}
