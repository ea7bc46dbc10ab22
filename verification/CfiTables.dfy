// The tables of a loaded module: `dwunw_cfi_build`, the degradation of
// src/dwarf/dwarf_index.c, and the lookup of an FDE by program counter.
module CfiTables {
  import opened Machine
  import opened GrowVector
  import opened CfiSection

  const EMPTY: Tables := Tables([], [])

  /** Every FDE names one of the CIEs, inside storage that the CIEs are or were in. */
  ghost predicate Linked(t: Tables) {
    forall i :: 0 <= i < |t.fdes| ==>
      && t.fdes[i].cie < |t.cies|
      && t.fdes[i].cie < t.fdes[i].storage
      && 8 <= t.fdes[i].storage <= CapacityAfter(|t.cies|)
  }

  /** Does the FDE's pointer lead into the storage that holds the CIEs, and not into
      storage that a later append has reallocated? */
  predicate PointsIntoTable(t: Tables, fde: FdeRecord) {
    fde.storage == CapacityAfter(|t.cies|)
  }

  /** For every entry of every section: the pointer of an FDE read after `t` leads into
      the table when `w` has been read exactly when the CIEs of `w` fit the storage that
      those of `t` were in. */
  lemma PointerKeptIff(start: nat, ciePointer: u32, payload: seq<byte>, isEh: bool, host: nat, t: Tables, w: Tables)
    requires FdeAt(start, ciePointer, payload, isEh, host, t.cies).Pass?
    requires t.cies <= w.cies && t.fdes + [FdeAt(start, ciePointer, payload, isEh, host, t.cies).value] <= w.fdes
    ensures PointsIntoTable(w, w.fdes[|t.fdes|]) <==> |w.cies| <= CapacityAfter(|t.cies|)
  {
    hide PointersAt, SkipAt, FindCie;
    StorageKeptIff(|t.cies|, |w.cies|);
    assert w.fdes[|t.fdes|] == (t.fdes + [FdeAt(start, ciePointer, payload, isEh, host, t.cies).value])[|t.fdes|];
  }

  /** In a module of at most eight CIEs every pointer leads into the table. */
  lemma EightCiesKeepPointers(t: Tables)
    requires Linked(t) && |t.cies| <= 8
    ensures forall i :: 0 <= i < |t.fdes| ==> PointsIntoTable(t, t.fdes[i])
  {
    if t.fdes != [] {
      assert t.fdes[0].cie < |t.cies|;
      StorageKeptIff(1, |t.cies|);
      assert CapacityAfter(1) == 8;
    }
  }

  /** A walk only appends records, and links every FDE it adds. */
  lemma {:induction false} WalkExtends(s: seq<byte>, pos: nat, isEh: bool, host: nat, t: Tables)
    requires Linked(t)
    ensures var w := Walk(s, pos, isEh, host, t).tables;
            Linked(w) && t.cies <= w.cies && t.fdes <= w.fdes
    decreases |s| - pos
  {
    hide CieAt, FdeAt;
    if pos + 4 <= |s| {
      var length := Word(s, pos);
      if 4 <= length <= |s| - pos - 4 {
        match EntryAt(s, pos, length, isEh, host, t)
        case Fail(_) =>
        case Pass(t') =>
          EntryExtends(s, pos, length, isEh, host, t);
          WalkExtends(s, pos + 4 + length, isEh, host, t');
      }
    }
  }

  lemma EntryExtends(s: seq<byte>, pos: nat, length: nat, isEh: bool, host: nat, t: Tables)
    requires 4 <= length && pos + 4 + length <= |s| && Linked(t)
    requires EntryAt(s, pos, length, isEh, host, t).Pass?
    ensures var w := EntryAt(s, pos, length, isEh, host, t).value;
            Linked(w) && t.cies <= w.cies && t.fdes <= w.fdes
  {
    hide CieAt, FdeAt;
    CapacityGrows(|t.cies|, |t.cies| + 1);
    var id, payload := Word(s, pos + 4), s[pos + 8..pos + 4 + length];
    if id != IdOfCie(isEh) {
      FdeLinked(pos, id, payload, isEh, host, t.cies);
    }
  }

  lemma FdeLinked(start: nat, ciePointer: u32, payload: seq<byte>, isEh: bool, host: nat, cies: seq<CieRecord>)
    requires FdeAt(start, ciePointer, payload, isEh, host, cies).Pass?
    ensures var fde := FdeAt(start, ciePointer, payload, isEh, host, cies).value;
            fde.cie < |cies| && fde.cie < fde.storage && 8 <= fde.storage == CapacityAfter(|cies|)
  {
    hide PointersAt, SkipAt;
    DoublingIsLinear(|cies|);
  }

  /** A section's bytes and the address they are mapped at. */
  datatype Section = Section(bytes: seq<byte>, host: nat)

  datatype Sections = Sections(ehFrame: Section, debugFrame: Section)

  /** The tables of both frame sections, .eh_frame first. */
  function Build(sections: Sections): Result<Tables> {
    var eh := Walk(sections.ehFrame.bytes, 0, true, sections.ehFrame.host, EMPTY);
    if eh.status != Ok then Fail(eh.status)
    else
      var debug := Walk(sections.debugFrame.bytes, 0, false, sections.debugFrame.host, eh.tables);
      if debug.status != Ok then Fail(debug.status)
      else if debug.tables.fdes == [] then Fail(NoDebugData)
      else Pass(debug.tables)
  }

  /** `dwunw_cfi_build`. */
  method CfiBuild(sections: Sections) returns (r: Result<Tables>)
    ensures r == Build(sections)
    ensures r.Pass? ==> Linked(r.value) && r.value.fdes != []
  {
    hide Walk;
    var cies := new Vector<CieRecord>();
    var fdes := new Vector<FdeRecord>();
    assert Tables(cies.Contents(), fdes.Contents()) == EMPTY;
    WalkExtends(sections.ehFrame.bytes, 0, true, sections.ehFrame.host, EMPTY);
    var st := ParseSection(sections.ehFrame.bytes, true, sections.ehFrame.host, cies, fdes);
    if st != Ok {
      return Fail(st);
    }
    ghost var t := Tables(cies.Contents(), fdes.Contents());
    WalkExtends(sections.debugFrame.bytes, 0, false, sections.debugFrame.host, t);
    st := ParseSection(sections.debugFrame.bytes, false, sections.debugFrame.host, cies, fdes);
    if st != Ok {
      return Fail(st);
    }
    if fdes.count == 0 {
      assert fdes.Contents() == [];
      return Fail(NoDebugData);
    }
    return Pass(Tables(cies.data[..cies.count], fdes.data[..fdes.count]));
  }

  /** A module that fails to parse is kept with empty tables. */
  predicate Degrades(st: Status) {
    st == NoDebugData || st == NotImplemented || st == BadFormat
  }

  function IndexTables(sections: Sections): Result<Tables> {
    var built := Build(sections);
    if built.Fail? && Degrades(built.status) then Pass(EMPTY) else built
  }

  /** `dwunw_dwarf_index_init`, after its sections have been collected. */
  method IndexInit(sections: Sections) returns (r: Result<Tables>)
    ensures r == IndexTables(sections)
    ensures r.Pass? ==> Linked(r.value)
  {
    r := CfiBuild(sections);
    if r.Fail? {
      match r.status
      case NoDebugData => r := Pass(EMPTY);
      case NotImplemented => r := Pass(EMPTY);
      case BadFormat => r := Pass(EMPTY);
      case _ =>
    }
  }

  /** Only an entry whose bytes the parser leaves can make indexing fail. */
  lemma IndexFailsOnlyUnspecified(sections: Sections)
    ensures IndexTables(sections).Fail? ==> IndexTables(sections).status == Unspecified
  {
    hide Walk;
  }

  /** The range test of the lookup; its end wraps at 2^64. */
  predicate Covers(fde: FdeRecord, pc: u64) {
    fde.pcBegin <= pc < Wrap(fde.pcBegin + fde.pcRange)
  }

  /** The range holds the addresses from its beginning up to its end, and none at all
      when its end is 2^64 or beyond. */
  lemma CoversIff(fde: FdeRecord, pc: u64)
    ensures Covers(fde, pc)
       <==> fde.pcBegin <= pc && pc < fde.pcBegin + fde.pcRange && fde.pcBegin + fde.pcRange < 0x1_0000_0000_0000_0000
  {
  }

  /** The first FDE that covers `pc`. */
  function Covering(fdes: seq<FdeRecord>, pc: u64): (r: Option<nat>)
    ensures r.Some? ==> r.value < |fdes| && Covers(fdes[r.value], pc)
    ensures r.Some? ==> forall i :: 0 <= i < r.value ==> !Covers(fdes[i], pc)
    ensures r.None? ==> forall i :: 0 <= i < |fdes| ==> !Covers(fdes[i], pc)
  {
    if fdes == [] then None
    else if Covers(fdes[0], pc) then Some(0)
    else
      var r := Covering(fdes[1..], pc);
      assert forall i :: 1 <= i < |fdes| ==> fdes[i] == fdes[1..][i - 1];
      if r.None? then None else Some(r.value + 1)
  }

  /** `dwunw_cfi_find_fde`. */
  method FindFde(fdes: seq<FdeRecord>, pc: u64) returns (r: Option<nat>)
    ensures r == Covering(fdes, pc)
  {
    for i := 0 to |fdes|
      invariant forall j :: 0 <= j < i ==> !Covers(fdes[j], pc)
    {
      if Covers(fdes[i], pc) {
        return Some(i);
      }
    }
    return None;
  }
}
