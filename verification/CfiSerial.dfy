// Writing frame sections, of both kinds, every CIE version, augmentation and pointer
// encoding that the parser supports, and the proof that parsing reads back what was
// written. The layout is the parser's own: from version 3 on the address and segment
// sizes of a .debug_frame CIE stand after its return register, and the CIE pointer of an
// .eh_frame FDE and a PC-relative address are measured from the byte after their field.
module CfiSerial {
  import opened Machine
  import opened Leb128
  import opened GrowVector
  import opened CfiSection
  import opened CfiTables

  /** The kind of section, and the address it is mapped at. */
  datatype Place = Place(isEh: bool, host: nat)

  datatype Entry =
    | Cie(version: byte, augmentation: seq<byte>, codeAlign: u64, dataAlign: i64, returnReg: u64, addressSize: byte,
          segmentSize: byte, augData: seq<byte>, instructions: seq<byte>)
    | Fde(parent: nat, begin: u64, range: u64, augData: seq<byte>, instructions: seq<byte>)

  /** The letters 'R' that `letters` begins with. */
  function LeadingRs(letters: seq<byte>): (n: nat)
    ensures n <= |letters|
    ensures forall i :: 0 <= i < n ==> letters[i] == 0x52
    ensures n < |letters| ==> letters[n] != 0x52
  {
    if letters == [] || letters[0] != 0x52 then 0
    else
      var n := LeadingRs(letters[1..]);
      assert forall i :: 1 <= i < n + 1 ==> letters[i] == letters[1..][i - 1];
      n + 1
  }

  /** The augmentation says that sized data follows. */
  predicate HasData(augmentation: seq<byte>) {
    augmentation != [] && augmentation[0] == 0x7a
  }

  /** The pointer encoding a CIE gives: the datum of its last leading 'R'. */
  function EncodingOf(augmentation: seq<byte>, augData: seq<byte>): byte
    requires HasData(augmentation) ==> LeadingRs(augmentation[1..]) <= |augData|
  {
    if !HasData(augmentation) then 0
    else
      var n := LeadingRs(augmentation[1..]);
      if n == 0 then 0 else augData[n - 1]
  }

  /** Does a CIE hold its address and segment sizes? */
  predicate HasSizes(version: byte, place: Place) {
    !place.isEh && version >= 3
  }

  /** An encoding whose format and application the parser supports. */
  predicate Supported(encoding: byte) {
    && (encoding == 0 || encoding % 16 in {1, 2, 3, 4, 6, 7})
    && (encoding / 16 % 8 == 0 || encoding / 16 % 8 == 1)
  }

  /** The bytes of a fixed format; 0 for ULEB128. */
  function RawWidth(encoding: byte): (w: nat)
    requires Supported(encoding) || encoding == 0
    ensures w == 0 || IsWidth(w)
  {
    if encoding == 0 then 8
    else if encoding % 16 == 1 then 0
    else if encoding % 16 == 2 then 2
    else if encoding % 16 == 3 || encoding % 16 == 6 then 4
    else 8
  }

  predicate RawFits(encoding: byte, raw: u64) {
    Supported(encoding) && (RawWidth(encoding) != 0 ==> raw < WidthLimit(RawWidth(encoding)))
  }

  function RawBytes(encoding: byte, raw: u64): seq<byte>
    requires RawFits(encoding, raw)
  {
    if RawWidth(encoding) == 0 then EncodeUleb(raw) else EncodeFixed(raw, RawWidth(encoding))
  }

  /** The address that a field at `address` stands for. */
  function Located(encoding: byte, raw: u64, address: nat): u64
    requires RawFits(encoding, raw)
  {
    if encoding / 16 % 8 == 1 then (raw + address + |RawBytes(encoding, raw)|) % 0x1_0000_0000_0000_0000 else raw
  }

  /** An entry that can follow the CIEs `cies` at `offset`. */
  predicate Writable(e: Entry, cies: seq<CieRecord>, offset: nat) {
    match e
    case Cie(_, augmentation, _, _, _, _, _, augData, _) =>
      && (forall i :: 0 <= i < |augmentation| ==> augmentation[i] != 0)
      && (HasData(augmentation) ==> LeadingRs(augmentation[1..]) <= |augData| <= U64_MAX)
    case Fde(parent, begin, range, augData, _) =>
      && parent < |cies|
      && cies[parent].offset < offset
      && RawFits(cies[parent].ptrEncoding, begin)
      && RawFits(cies[parent].ptrEncoding % 16, range)
      && |augData| <= U64_MAX
  }

  function HeadBytes(version: byte, augmentation: seq<byte>, codeAlign: u64, dataAlign: i64, returnReg: u64)
    : seq<byte>
  {
    ([version] + augmentation + [0]) + (EncodeUleb(codeAlign) + EncodeSleb(dataAlign) + EncodeUleb(returnReg))
  }

  function SizeBytes(version: byte, addressSize: byte, segmentSize: byte, place: Place): seq<byte> {
    if HasSizes(version, place) then [addressSize, segmentSize] else []
  }

  /** Augmentation data with its size. */
  function DataBytes(augmentation: seq<byte>, augData: seq<byte>): seq<byte> {
    if HasData(augmentation) then EncodeUleb(|augData|) + augData else []
  }

  /** The bytes after the id or CIE pointer. */
  function Payload(e: Entry, cies: seq<CieRecord>, offset: nat, place: Place): seq<byte>
    requires Writable(e, cies, offset)
  {
    match e
    case Cie(version, augmentation, codeAlign, dataAlign, returnReg, addressSize, segmentSize, augData, instructions) =>
      HeadBytes(version, augmentation, codeAlign, dataAlign, returnReg)
      + ((SizeBytes(version, addressSize, segmentSize, place) + DataBytes(augmentation, augData)) + instructions)
    case Fde(parent, begin, range, augData, instructions) =>
      var cie := cies[parent];
      (RawBytes(cie.ptrEncoding, begin) + RawBytes(cie.ptrEncoding % 16, range))
      + (DataBytes(cie.augmentation, augData) + instructions)
  }

  function Id(e: Entry, cies: seq<CieRecord>, offset: nat, place: Place): nat
    requires Writable(e, cies, offset)
  {
    if e.Cie? then (if place.isEh then 0 else 0xffff_ffff)
    else if place.isEh then offset + 8 - cies[e.parent].offset
    else cies[e.parent].offset
  }

  /** One entry: length, id, payload. */
  function EntryBytes(e: Entry, cies: seq<CieRecord>, offset: nat, place: Place): seq<byte>
    requires Writable(e, cies, offset)
  {
    var payload := Payload(e, cies, offset, place);
    EncodeFixed(4 + |payload|, 4) + EncodeFixed(Id(e, cies, offset, place), 4) + payload
  }

  /** The record of a CIE. */
  function CieOf(e: Entry, offset: nat, place: Place): CieRecord
    requires e.Cie? && Writable(e, [], offset)
  {
    CieRecord(e.version, if HasSizes(e.version, place) then e.addressSize else 8, e.returnReg % 0x100,
              EncodingOf(e.augmentation, e.augData), e.dataAlign, e.codeAlign, offset, e.augmentation, e.instructions)
  }

  /** The record of an FDE with the CIE `cie`, written when `count` CIEs were. */
  function FdeOf(e: Entry, offset: nat, place: Place, cie: CieRecord, count: nat): FdeRecord
    requires e.Fde? && RawFits(cie.ptrEncoding, e.begin)
  {
    FdeRecord(e.parent, CapacityAfter(count), offset, Located(cie.ptrEncoding, e.begin, place.host + offset + 8),
              e.range, e.instructions)
  }

  /** The tables with the entry's own record added. */
  function Recorded(e: Entry, offset: nat, t: Tables, place: Place): Tables
    requires Writable(e, t.cies, offset)
  {
    if e.Cie? then t.(cies := t.cies + [CieOf(e, offset, place)])
    else t.(fdes := t.fdes + [FdeOf(e, offset, place, t.cies[e.parent], |t.cies|)])
  }

  /** A list of entries that can be written from `offset` on. */
  predicate AllWritable(es: seq<Entry>, offset: nat, t: Tables, place: Place) {
    es != [] ==>
      && Writable(es[0], t.cies, offset)
      && AllWritable(es[1..], offset + |EntryBytes(es[0], t.cies, offset, place)|, Recorded(es[0], offset, t, place),
                     place)
  }

  /** The section bytes of the list. */
  function Emit(es: seq<Entry>, offset: nat, t: Tables, place: Place): seq<byte>
    requires AllWritable(es, offset, t, place)
  {
    if es == [] then []
    else
      var b := EntryBytes(es[0], t.cies, offset, place);
      b + Emit(es[1..], offset + |b|, Recorded(es[0], offset, t, place), place)
  }

  /** The records of the list, in order, each at the offset of its entry. */
  function Records(es: seq<Entry>, offset: nat, t: Tables, place: Place): Tables
    requires AllWritable(es, offset, t, place)
  {
    if es == [] then t
    else
      Records(es[1..], offset + |EntryBytes(es[0], t.cies, offset, place)|, Recorded(es[0], offset, t, place), place)
  }

  /** What holds of the tables while writing at `offset`: CIE offsets increase by eight
      at least, and stay as much below it. */
  ghost predicate Written(t: Tables, offset: nat) {
    && (forall i :: 0 <= i < |t.cies| ==> t.cies[i].offset + 8 <= offset)
    && (forall i, j :: 0 <= i < j < |t.cies| ==> t.cies[i].offset + 8 <= t.cies[j].offset)
  }

  lemma RecordedWritten(e: Entry, offset: nat, t: Tables, place: Place)
    requires Writable(e, t.cies, offset) && Written(t, offset)
    ensures Written(Recorded(e, offset, t, place), offset + |EntryBytes(e, t.cies, offset, place)|)
  {
    hide Payload, Id, Writable;
  }

  // ---------------------------------------------------------------------
  // Reading back the parts of an entry

  lemma NameReads(version: byte, augmentation: seq<byte>, rest: seq<byte>)
    requires forall i :: 0 <= i < |augmentation| ==> augmentation[i] != 0
    ensures var bytes := [version] + augmentation + [0];
            && NameAt(bytes + rest) == Pass(Read(Name(version, augmentation), |bytes|))
            && (bytes + rest)[|bytes|..] == rest
  {
    var bytes := [version] + augmentation + [0];
    var after := augmentation + ([0] + rest);
    assert (bytes + rest)[1..] == after;
    StrLenIs(after, |augmentation|);
    assert after[..|augmentation|] == augmentation;
  }

  lemma AlignmentsRead(code: u64, data: i64, reg: u64, rest: seq<byte>)
    ensures var bytes := EncodeUleb(code) + EncodeSleb(data) + EncodeUleb(reg);
            AlignmentsAt(bytes + rest) == Pass(Read(Alignments(code, data, reg), |bytes|))
  {
    hide Uleb, Sleb, EncodeUleb, EncodeSleb;
    UlebRoundTrip(code, EncodeSleb(data) + (EncodeUleb(reg) + rest));
    SlebRoundTrip(data, EncodeUleb(reg) + rest);
    UlebRoundTrip(reg, rest);
    ThreeParts(EncodeUleb(code), EncodeSleb(data), EncodeUleb(reg), rest);
  }

  lemma ThreeParts(a: seq<byte>, b: seq<byte>, c: seq<byte>, rest: seq<byte>)
    ensures var s := a + b + c + rest;
            s == a + (b + (c + rest)) && s[|a|..] == b + (c + rest) && s[|a| + |b|..] == c + rest
  {
  }

  lemma SizesRead(version: byte, addressSize: byte, segmentSize: byte, place: Place, rest: seq<byte>)
    ensures var bytes := SizeBytes(version, addressSize, segmentSize, place);
            && AddressSizeAt(bytes + rest, !place.isEh && version >= 3)
               == Pass(Read(if HasSizes(version, place) then addressSize else 8, |bytes|))
            && (bytes + rest)[|bytes|..] == rest
  {
  }

  lemma SizedReads(data: seq<byte>, rest: seq<byte>, address: nat)
    requires |data| <= U64_MAX
    ensures var bytes := EncodeUleb(|data|) + data;
            && SizedAt(bytes + rest, address) == Pass(Read(|data|, |EncodeUleb(|data|)|))
            && (bytes + rest)[|EncodeUleb(|data|)|..][..|data|] == data
            && (bytes + rest)[|bytes|..] == rest
  {
    hide EncodeUleb, Uleb;
    assert EncodeUleb(|data|) + data + rest == EncodeUleb(|data|) + (data + rest);
    UlebRoundTrip(|data|, data + rest);
    assert (EncodeUleb(|data|) + (data + rest))[|EncodeUleb(|data|)|..] == data + rest;
    assert (data + rest)[..|data|] == data;
  }

  lemma {:induction false} LettersRead(letters: seq<byte>, data: seq<byte>, encoding: byte)
    requires LeadingRs(letters) <= |data|
    ensures AugEncoding(letters, data, encoding)
         == Pass(if LeadingRs(letters) == 0 then encoding else data[LeadingRs(letters) - 1])
  {
    if letters != [] && letters[0] == 0x52 {
      LettersRead(letters[1..], data[1..], data[0]);
    }
  }

  lemma DataReads(augmentation: seq<byte>, data: seq<byte>, rest: seq<byte>, address: nat)
    requires HasData(augmentation) ==> LeadingRs(augmentation[1..]) <= |data| <= U64_MAX
    ensures var bytes := DataBytes(augmentation, data);
            && AugmentationAt(bytes + rest, augmentation, address)
               == Pass(Read(EncodingOf(augmentation, data), |bytes|))
            && (bytes + rest)[|bytes|..] == rest
  {
    hide SizedAt, AugEncoding, EncodeUleb;
    if HasData(augmentation) {
      SizedReads(data, rest, address);
      LettersRead(augmentation[1..], data, 0);
    }
  }

  lemma CodingReads(version: byte, augmentation: seq<byte>, addressSize: byte, segmentSize: byte, data: seq<byte>,
                    rest: seq<byte>, place: Place, address: nat)
    requires HasData(augmentation) ==> LeadingRs(augmentation[1..]) <= |data| <= U64_MAX
    ensures var bytes := SizeBytes(version, addressSize, segmentSize, place) + DataBytes(augmentation, data);
            && CodingAt(bytes + rest, Name(version, augmentation), place.isEh, address)
               == Pass(Read(Coding(if HasSizes(version, place) then addressSize else 8, EncodingOf(augmentation, data)),
                            |bytes|))
            && (bytes + rest)[|bytes|..] == rest
  {
    hide AddressSizeAt, AugmentationAt, SizeBytes, DataBytes, EncodingOf;
    var a, b := SizeBytes(version, addressSize, segmentSize, place), DataBytes(augmentation, data);
    assert a + b + rest == a + (b + rest);
    SizesRead(version, addressSize, segmentSize, place, b + rest);
    DataReads(augmentation, data, rest, address + |a|);
  }

  lemma HeadReads(version: byte, augmentation: seq<byte>, code: u64, data: i64, reg: u64, rest: seq<byte>)
    requires forall i :: 0 <= i < |augmentation| ==> augmentation[i] != 0
    ensures var bytes := HeadBytes(version, augmentation, code, data, reg);
            && HeadAt(bytes + rest)
               == Pass(Read(Head(Name(version, augmentation), Alignments(code, data, reg)), |bytes|))
            && (bytes + rest)[|bytes|..] == rest
  {
    hide NameAt, AlignmentsAt, EncodeUleb, EncodeSleb;
    var a := [version] + augmentation + [0];
    var b := EncodeUleb(code) + EncodeSleb(data) + EncodeUleb(reg);
    assert (a + b) + rest == a + (b + rest);
    NameReads(version, augmentation, b + rest);
    AlignmentsRead(code, data, reg, rest);
  }

  lemma CieReads(e: Entry, offset: nat, t: Tables, place: Place)
    requires e.Cie? && Writable(e, t.cies, offset)
    ensures CieAt(offset, Payload(e, t.cies, offset, place), place.isEh, place.host) == Pass(CieOf(e, offset, place))
  {
    hide HeadAt, CodingAt, HeadBytes, SizeBytes, DataBytes, EncodingOf;
    var coding := SizeBytes(e.version, e.addressSize, e.segmentSize, place) + DataBytes(e.augmentation, e.augData);
    var head := HeadBytes(e.version, e.augmentation, e.codeAlign, e.dataAlign, e.returnReg);
    HeadReads(e.version, e.augmentation, e.codeAlign, e.dataAlign, e.returnReg, coding + e.instructions);
    CodingReads(e.version, e.augmentation, e.addressSize, e.segmentSize, e.augData, e.instructions, place,
                place.host + offset + 8 + |head|);
  }

  lemma RawReads(encoding: byte, raw: u64, rest: seq<byte>)
    requires RawFits(encoding, raw)
    ensures PointerWidth(encoding) == Pass(RawWidth(encoding))
    ensures var bytes := RawBytes(encoding, raw);
            && (if RawWidth(encoding) == 0 then Uleb(bytes + rest) else Fixed(bytes + rest, RawWidth(encoding)))
               == Some(Read(raw, |bytes|))
            && (bytes + rest)[|bytes|..] == rest
  {
    hide Uleb, Fixed, EncodeUleb, EncodeFixed;
    if RawWidth(encoding) == 0 {
      UlebRoundTrip(raw, rest);
    } else {
      FixedRoundTrip(raw, RawWidth(encoding), rest);
    }
  }

  /** Every supported pointer is read back, as the address it stands for. */
  lemma PointerReads(encoding: byte, raw: u64, rest: seq<byte>, address: nat)
    requires RawFits(encoding, raw)
    ensures var bytes := RawBytes(encoding, raw);
            && EncodedPointer(encoding, bytes + rest, address) == Pass(Read(Located(encoding, raw, address), |bytes|))
            && (bytes + rest)[|bytes|..] == rest
  {
    hide Uleb, Fixed, PointerWidth, RawBytes, RawWidth;
    RawReads(encoding, raw, rest);
  }

  /** For any bytes: how reading a pointer fails. The format is looked at first, the
      application last. */
  lemma PointerOutcome(encoding: byte, s: seq<byte>, address: nat)
    ensures var r := EncodedPointer(encoding, s, address);
            if encoding != 0 && encoding % 16 !in {1, 2, 3, 4, 6, 7} then r == Fail(NotImplemented)
            else if (if encoding % 16 == 1 then Uleb(s).None?
                     else if encoding % 16 == 2 then |s| < 2
                     else if encoding % 16 == 3 || encoding % 16 == 6 then |s| < 4
                     else |s| < 8) then
              r == Fail(BadFormat)
            else if encoding / 16 % 8 != 0 && encoding / 16 % 8 != 1 then r == Fail(NotImplemented)
            else r.Pass?
  {
    hide Uleb;
  }

  lemma PointersRead(encoding: byte, begin: u64, range: u64, rest: seq<byte>, address: nat)
    requires RawFits(encoding, begin) && RawFits(encoding % 16, range)
    ensures var bytes := RawBytes(encoding, begin) + RawBytes(encoding % 16, range);
            && PointersAt(encoding, bytes + rest, address)
               == Pass(Read((Located(encoding, begin, address), range), |bytes|))
            && (bytes + rest)[|bytes|..] == rest
  {
    hide EncodedPointer, RawBytes, RawWidth;
    var a, b := RawBytes(encoding, begin), RawBytes(encoding % 16, range);
    assert a + b + rest == a + (b + rest);
    PointerReads(encoding, begin, b + rest, address);
    PointerReads(encoding % 16, range, rest, address + |a|);
  }

  lemma SkipReads(cie: CieRecord, augData: seq<byte>, rest: seq<byte>, address: nat)
    requires |augData| <= U64_MAX
    ensures var bytes := DataBytes(cie.augmentation, augData);
            && (if cie.Augmented() then SkipAt(bytes + rest, address) else Pass(0)) == Pass(|bytes|)
            && (bytes + rest)[|bytes|..] == rest
  {
    hide SizedAt, EncodeUleb;
    SizedReads(augData, rest, address);
  }

  lemma {:induction false} FindsOwn(cies: seq<CieRecord>, i: nat)
    requires i < |cies|
    requires forall j, k :: 0 <= j < k < |cies| ==> cies[j].offset < cies[k].offset
    ensures FindCie(cies, cies[i].offset) == Some(i)
  {
    var r := FindCie(cies, cies[i].offset);
    assert r.Some? && cies[r.value].offset == cies[i].offset;
  }

  /** The id of an FDE leads back to its CIE. */
  lemma IdLeadsBack(e: Entry, offset: nat, t: Tables, place: Place)
    requires e.Fde? && Writable(e, t.cies, offset) && Written(t, offset) && offset + 8 < CIE_ID
    ensures Id(e, t.cies, offset, place) < CIE_ID && (place.isEh ==> Id(e, t.cies, offset, place) > 0)
    ensures FindCie(t.cies, CieOffset(offset, Id(e, t.cies, offset, place), place.isEh)) == Some(e.parent)
  {
    hide FindCie;
    FindsOwn(t.cies, e.parent);
  }

  /** What parsing makes of an entry when the id of an FDE leads to the CIE `link`. */
  function EntryLinked(e: Entry, offset: nat, t: Tables, place: Place, link: nat): Tables
    requires Writable(e, t.cies, offset)
  {
    if e.Cie? then Recorded(e, offset, t, place)
    else t.(fdes := t.fdes + [FdeOf(e, offset, place, t.cies[e.parent], |t.cies|).(cie := link)])
  }

  /** The id of an FDE leads to the CIE `link`, which is encoded as its own is. */
  ghost predicate LeadsTo(e: Entry, offset: nat, t: Tables, place: Place, link: nat)
    requires Writable(e, t.cies, offset)
  {
    e.Fde? ==>
      && Id(e, t.cies, offset, place) < CIE_ID && (place.isEh ==> Id(e, t.cies, offset, place) > 0)
      && FindCie(t.cies, CieOffset(offset, Id(e, t.cies, offset, place), place.isEh)) == Some(link)
      && t.cies[link].ptrEncoding == t.cies[e.parent].ptrEncoding
      && t.cies[link].augmentation == t.cies[e.parent].augmentation
  }

  lemma FdeReads(e: Entry, offset: nat, t: Tables, place: Place, link: nat)
    requires e.Fde? && Writable(e, t.cies, offset) && LeadsTo(e, offset, t, place, link)
    ensures FdeAt(offset, Id(e, t.cies, offset, place), Payload(e, t.cies, offset, place), place.isEh, place.host,
                  t.cies)
         == Pass(FdeOf(e, offset, place, t.cies[e.parent], |t.cies|).(cie := link))
  {
    hide PointersAt, SkipAt, FindCie, CieOffset, Id, RawBytes, DataBytes, RawFits, Located, CapacityAfter;
    var cie := t.cies[e.parent];
    var pointers := RawBytes(cie.ptrEncoding, e.begin) + RawBytes(cie.ptrEncoding % 16, e.range);
    PointersRead(cie.ptrEncoding, e.begin, e.range, DataBytes(cie.augmentation, e.augData) + e.instructions,
                 place.host + offset + 8);
    SkipReads(cie, e.augData, e.instructions, place.host + offset + 8 + |pointers|);
  }

  // ---------------------------------------------------------------------
  // Whole sections

  lemma WordReads(s: seq<byte>, at: nat, v: u32)
    requires at + 4 <= |s| && s[at..at + 4] == EncodeFixed(v, 4)
    ensures Word(s, at) == v
  {
    WidthLimitIsPow2(4);
    FixedValue(v, 4);
  }

  /** The slices of an entry that stands at index |pre|. */
  lemma EntrySlices(pre: seq<byte>, a: seq<byte>, b: seq<byte>, payload: seq<byte>, post: seq<byte>)
    requires |a| == 4 && |b| == 4
    ensures var s := pre + (a + b + payload) + post;
            && s[|pre|..|pre| + 4] == a
            && s[|pre| + 4..|pre| + 8] == b
            && s[|pre| + 8..|pre| + 8 + |payload|] == payload
  {
    var s := pre + (a + b + payload) + post;
    assert s == pre + (a + (b + (payload + post)));
  }

  /** One written entry is read back, linked to where its id leads. */
  lemma EntryReadsAs(pre: seq<byte>, e: Entry, post: seq<byte>, t: Tables, place: Place, link: nat)
    requires Writable(e, t.cies, |pre|) && LeadsTo(e, |pre|, t, place, link)
    requires |pre + EntryBytes(e, t.cies, |pre|, place)| < CIE_ID
    ensures var b := EntryBytes(e, t.cies, |pre|, place);
            var s := pre + b + post;
            && |b| >= 8
            && Word(s, |pre|) == |b| - 4
            && EntryAt(s, |pre|, |b| - 4, place.isEh, place.host, t) == Pass(EntryLinked(e, |pre|, t, place, link))
  {
    hide Payload, CieAt, FdeAt, CieOf, FdeOf, Word, EncodeFixed, Writable;
    var payload := Payload(e, t.cies, |pre|, place);
    var b := EntryBytes(e, t.cies, |pre|, place);
    var s := pre + b + post;
    var length, id := EncodeFixed(4 + |payload|, 4), EncodeFixed(Id(e, t.cies, |pre|, place), 4);
    EntrySlices(pre, length, id, payload, post);
    assert |b| == 8 + |payload|;
    WordReads(s, |pre|, 4 + |payload|);
    WordReads(s, |pre| + 4, Id(e, t.cies, |pre|, place));
    if e.Cie? {
      CieReads(e, |pre|, t, place);
    } else {
      FdeReads(e, |pre|, t, place, link);
    }
  }

  /** One written entry is read back as its own record. */
  lemma EntryReads(pre: seq<byte>, e: Entry, post: seq<byte>, t: Tables, place: Place)
    requires Writable(e, t.cies, |pre|) && Written(t, |pre|)
    requires |pre + EntryBytes(e, t.cies, |pre|, place)| < CIE_ID
    ensures var b := EntryBytes(e, t.cies, |pre|, place);
            var s := pre + b + post;
            && |b| >= 8
            && Word(s, |pre|) == |b| - 4
            && EntryAt(s, |pre|, |b| - 4, place.isEh, place.host, t) == Pass(Recorded(e, |pre|, t, place))
  {
    hide Payload, CieAt, FdeAt, CieOf, FdeOf, Word, EncodeFixed, Writable, Written, EntryAt, FindCie, CieOffset;
    assert |EntryBytes(e, t.cies, |pre|, place)| >= 8;
    if e.Fde? {
      IdLeadsBack(e, |pre|, t, place);
      FdeRecorded(e, |pre|, t, place);
    }
    EntryReadsAs(pre, e, post, t, place, if e.Fde? then e.parent else 0);
  }

  lemma FdeRecorded(e: Entry, offset: nat, t: Tables, place: Place)
    requires e.Fde? && Writable(e, t.cies, offset)
    ensures e.parent < |t.cies| && EntryLinked(e, offset, t, place, e.parent) == Recorded(e, offset, t, place)
  {
  }

  /** What ends a section: a zero length, or too few bytes for one. */
  predicate Terminates(tail: seq<byte>) {
    |tail| < 4 || tail[..4] == [0, 0, 0, 0]
  }

  /** Whatever follows, the walk reads the written entries and goes on behind them. */
  lemma {:induction false} WalkReadsFrom(pre: seq<byte>, es: seq<Entry>, tail: seq<byte>, t: Tables, place: Place)
    requires AllWritable(es, |pre|, t, place) && Written(t, |pre|)
    requires |pre + Emit(es, |pre|, t, place)| < CIE_ID
    ensures var written := pre + Emit(es, |pre|, t, place);
            && Walk(written + tail, |pre|, place.isEh, place.host, t)
               == Walk(written + tail, |written|, place.isEh, place.host, Records(es, |pre|, t, place))
            && Written(Records(es, |pre|, t, place), |written|)
    decreases |es|
  {
    hide EntryAt, EntryBytes, Word, Written, Recorded, Writable;
    if es == [] {
      assert pre + [] == pre;
    } else {
      var b := EntryBytes(es[0], t.cies, |pre|, place);
      var t' := Recorded(es[0], |pre|, t, place);
      var rest := Emit(es[1..], |pre| + |b|, t', place);
      var s := pre + (b + rest) + tail;
      assert s == pre + b + (rest + tail) && s == (pre + b) + rest + tail && pre + (b + rest) == (pre + b) + rest;
      EntryReads(pre, es[0], rest + tail, t, place);
      RecordedWritten(es[0], |pre|, t, place);
      WalkReadsFrom(pre + b, es[1..], tail, t', place);
    }
  }

  /** The same from the start of a section, on empty tables. */
  lemma WalkGoesOn(es: seq<Entry>, tail: seq<byte>, place: Place)
    requires AllWritable(es, 0, EMPTY, place) && |Emit(es, 0, EMPTY, place)| < CIE_ID
    ensures var written := Emit(es, 0, EMPTY, place);
            && Walk(written + tail, 0, place.isEh, place.host, EMPTY)
               == Walk(written + tail, |written|, place.isEh, place.host, Records(es, 0, EMPTY, place))
            && Written(Records(es, 0, EMPTY, place), |written|)
  {
    hide Walk, Emit, Records, AllWritable;
    assert [] + Emit(es, 0, EMPTY, place) == Emit(es, 0, EMPTY, place);
    WalkReadsFrom([], es, tail, EMPTY, place);
  }

  lemma TerminatorReads(pre: seq<byte>, tail: seq<byte>)
    requires Terminates(tail)
    ensures |tail| >= 4 ==> Word(pre + tail, |pre|) == 0
  {
    if |tail| >= 4 {
      assert (pre + tail)[|pre|..|pre| + 4] == tail[..4];
      assert EncodeFixed(0, 4) == [0] + EncodeFixed(0, 3) == [0, 0] + EncodeFixed(0, 2);
      assert EncodeFixed(0, 2) == [0] + EncodeFixed(0, 1);
      assert EncodeFixed(0, 1) == [0] + EncodeFixed(0, 0);
      WordReads(pre + tail, |pre|, 0);
    }
  }

  /** Parsing a written section on empty tables returns its records, in order, every FDE
      linked to the CIE it was written for. */
  lemma SectionRoundTrip(es: seq<Entry>, tail: seq<byte>, place: Place)
    requires AllWritable(es, 0, EMPTY, place) && |Emit(es, 0, EMPTY, place)| < CIE_ID && Terminates(tail)
    ensures Walk(Emit(es, 0, EMPTY, place) + tail, 0, place.isEh, place.host, EMPTY)
         == Walked(Ok, Records(es, 0, EMPTY, place))
  {
    hide Emit, Records, AllWritable, Word, Terminates;
    WalkGoesOn(es, tail, place);
    TerminatorReads(Emit(es, 0, EMPTY, place), tail);
    TailEnds(Emit(es, 0, EMPTY, place), tail);
  }

  lemma TailEnds(pre: seq<byte>, tail: seq<byte>)
    requires Terminates(tail)
    ensures |pre + tail| < |pre| + 4 || |tail| >= 4
  {
  }

  /** An entry announced longer than the rest of the section fails the parse. */
  lemma OverlongEntryFails(es: seq<Entry>, length: u32, rest: seq<byte>, place: Place)
    requires AllWritable(es, 0, EMPTY, place) && |Emit(es, 0, EMPTY, place)| < CIE_ID
    requires |rest| < length
    ensures Walk(Emit(es, 0, EMPTY, place) + (EncodeFixed(length, 4) + rest), 0, place.isEh, place.host, EMPTY).status
         == BadFormat
  {
    hide Walk, Emit, Records, AllWritable, EncodeFixed;
    var written := Emit(es, 0, EMPTY, place);
    WalkGoesOn(es, EncodeFixed(length, 4) + rest, place);
    OverlongStops(written, length, rest, Records(es, 0, EMPTY, place), place);
  }

  lemma OverlongStops(written: seq<byte>, length: u32, rest: seq<byte>, t: Tables, place: Place)
    requires |rest| < length
    ensures Walk(written + (EncodeFixed(length, 4) + rest), |written|, place.isEh, place.host, t)
         == Walked(BadFormat, t)
  {
    hide Word, EncodeFixed;
    var s := written + (EncodeFixed(length, 4) + rest);
    assert s[|written|..|written| + 4] == EncodeFixed(length, 4);
    WordReads(s, |written|, length);
  }

  /** The bytes of such an FDE at `offset`, for a CIE at `cie`. */
  function StandardFde(offset: nat, cie: nat, payload: seq<byte>): seq<byte>
    requires cie < offset
  {
    EncodeFixed(4 + |payload|, 4) + EncodeFixed(offset + 4 - cie, 4) + payload
  }

  /** An FDE of an .eh_frame section as the Linux Standard Base lays it out, its CIE
      pointer measured from the field itself: parsing fails there. */
  lemma StandardEhFdeFails(es: seq<Entry>, parent: nat, payload: seq<byte>, rest: seq<byte>, host: nat)
    requires AllWritable(es, 0, EMPTY, Place(true, host)) && |Emit(es, 0, EMPTY, Place(true, host))| + 8 < CIE_ID
    requires |payload| + 4 < CIE_ID
    requires parent < |Records(es, 0, EMPTY, Place(true, host)).cies|
    ensures var place := Place(true, host);
            var written := Emit(es, 0, EMPTY, place);
            var cie := Records(es, 0, EMPTY, place).cies[parent];
            && cie.offset < |written|
            && var bytes := written + (StandardFde(|written|, cie.offset, payload) + rest);
               Walk(bytes, 0, true, host, EMPTY).status == BadFormat
  {
    hide Walk, Emit, Records, AllWritable, EncodeFixed;
    var place := Place(true, host);
    var written, t := Emit(es, 0, EMPTY, place), Records(es, 0, EMPTY, place);
    WalkGoesOn(es, [], place);
    assert t.cies[parent].offset + 8 <= |written|;
    WalkGoesOn(es, StandardFde(|written|, t.cies[parent].offset, payload) + rest, place);
    StandardFdeStops(written, t, parent, payload, rest, host);
  }

  lemma StandardFdeStops(written: seq<byte>, t: Tables, parent: nat, payload: seq<byte>, rest: seq<byte>, host: nat)
    requires Written(t, |written|) && parent < |t.cies|
    requires |written| + 8 < CIE_ID && |payload| + 4 < CIE_ID
    ensures t.cies[parent].offset < |written|
    ensures Walk(written + (StandardFde(|written|, t.cies[parent].offset, payload) + rest), |written|, true, host, t)
         == Walked(BadFormat, t)
  {
    hide Word, EncodeFixed, FindCie, CieAt, PointersAt, SkipAt, Written;
    assert t.cies[parent].offset + 8 <= |written| by {
      OffsetBelow(t, |written|, parent);
    }
    var length, id := 4 + |payload|, |written| + 4 - t.cies[parent].offset;
    var s := written + ((EncodeFixed(length, 4) + EncodeFixed(id, 4) + payload) + rest);
    assert s == written + (EncodeFixed(length, 4) + EncodeFixed(id, 4) + payload) + rest;
    EntrySlices(written, EncodeFixed(length, 4), EncodeFixed(id, 4), payload, rest);
    WordReads(s, |written|, length);
    WordReads(s, |written| + 4, id);
    NoneBetween(t, |written|, parent);
    assert CieOffset(|written|, id, true) == t.cies[parent].offset + 4;
  }

  lemma OffsetBelow(t: Tables, offset: nat, i: nat)
    requires Written(t, offset) && i < |t.cies|
    ensures t.cies[i].offset + 8 <= offset
  {
  }

  /** No CIE begins four bytes after another. */
  lemma NoneBetween(t: Tables, offset: nat, i: nat)
    requires Written(t, offset) && i < |t.cies|
    ensures FindCie(t.cies, t.cies[i].offset + 4) == None
  {
    var r := FindCie(t.cies, t.cies[i].offset + 4);
  }

  /** A PC-relative address as the standard measures it, from its field, is recorded too
      high by the field's width. */
  lemma PcRelativeIsHigh(encoding: byte, begin: u64, address: nat)
    requires encoding / 16 % 8 == 1 && RawFits(encoding, (begin - address) % 0x1_0000_0000_0000_0000)
    ensures var raw := (begin - address) % 0x1_0000_0000_0000_0000;
            Located(encoding, raw, address) == (begin as int + |RawBytes(encoding, raw)|) % 0x1_0000_0000_0000_0000
  {
    hide RawBytes, RawFits;
    var raw := (begin - address) % 0x1_0000_0000_0000_0000;
    WrapAdd(begin - address, address + |RawBytes(encoding, raw)|);
  }

  // ---------------------------------------------------------------------
  // What the records say

  function CiesIn(es: seq<Entry>): nat {
    if es == [] then 0 else (if es[0].Cie? then 1 else 0) + CiesIn(es[1..])
  }

  function FdesIn(es: seq<Entry>): nat {
    if es == [] then 0 else (if es[0].Fde? then 1 else 0) + FdesIn(es[1..])
  }

  /** The offset of the k-th entry. */
  function Start(es: seq<Entry>, offset: nat, t: Tables, place: Place, k: nat): nat
    requires AllWritable(es, offset, t, place) && k <= |es|
  {
    if k == 0 then offset
    else
      Start(es[1..], offset + |EntryBytes(es[0], t.cies, offset, place)|, Recorded(es[0], offset, t, place), place,
            k - 1)
  }

  /** The k-th entry's record is the one it describes: found at its rank among the
      entries of its kind, at the entry's own offset. */
  lemma {:induction false} RecordOf(es: seq<Entry>, offset: nat, t: Tables, place: Place, k: nat)
    requires AllWritable(es, offset, t, place) && k < |es|
    ensures var r := Records(es, offset, t, place);
            && t.cies <= r.cies && t.fdes <= r.fdes
            && var start := Start(es, offset, t, place, k);
               if es[k].Cie? then
                 var i := |t.cies| + CiesIn(es[..k]);
                 i < |r.cies| && Writable(es[k], [], start) && r.cies[i] == CieOf(es[k], start, place)
               else
                 var i := |t.fdes| + FdesIn(es[..k]);
                 && i < |r.fdes| && es[k].parent < |t.cies| + CiesIn(es[..k]) <= |r.cies|
                 && RawFits(r.cies[es[k].parent].ptrEncoding, es[k].begin)
                 && r.fdes[i] == FdeOf(es[k], start, place, r.cies[es[k].parent], |t.cies| + CiesIn(es[..k]))
    decreases |es|
  {
    hide EntryBytes, CapacityAfter, CieOf, FdeOf, RawFits, Writable;
    WritableAlone(es[0], t.cies, offset);
    var t' := Recorded(es[0], offset, t, place);
    var offset' := offset + |EntryBytes(es[0], t.cies, offset, place)|;
    if k == 0 {
      RecordsExtend(es[1..], offset', t', place);
    } else {
      RecordOf(es[1..], offset', t', place, k - 1);
      assert es[..k] == [es[0]] + es[1..][..k - 1];
      assert es[..k][1..] == es[1..][..k - 1];
    }
  }

  lemma WritableAlone(e: Entry, cies: seq<CieRecord>, offset: nat)
    requires Writable(e, cies, offset)
    ensures e.Cie? ==> Writable(e, [], offset)
    ensures e.Fde? ==> e.parent < |cies| && RawFits(cies[e.parent].ptrEncoding, e.begin)
  {
  }

  lemma {:induction false} RecordsExtend(es: seq<Entry>, offset: nat, t: Tables, place: Place)
    requires AllWritable(es, offset, t, place)
    ensures t.cies <= Records(es, offset, t, place).cies && t.fdes <= Records(es, offset, t, place).fdes
    decreases |es|
  {
    hide EntryBytes, Writable, CieOf, FdeOf;
    if es != [] {
      RecordsExtend(es[1..], offset + |EntryBytes(es[0], t.cies, offset, place)|, Recorded(es[0], offset, t, place),
                    place);
    }
  }

  lemma {:induction false} RecordsCount(es: seq<Entry>, offset: nat, t: Tables, place: Place)
    requires AllWritable(es, offset, t, place)
    ensures |Records(es, offset, t, place).cies| == |t.cies| + CiesIn(es)
    ensures |Records(es, offset, t, place).fdes| == |t.fdes| + FdesIn(es)
    decreases |es|
  {
    hide EntryBytes, Writable, CieOf, FdeOf;
    if es != [] {
      RecordsCount(es[1..], offset + |EntryBytes(es[0], t.cies, offset, place)|, Recorded(es[0], offset, t, place),
                   place);
    }
  }

  /** Every rank among the CIEs is some entry's. */
  lemma {:induction false} CieOfRank(es: seq<Entry>, i: nat) returns (k: nat)
    requires i < CiesIn(es)
    ensures k < |es| && es[k].Cie? && CiesIn(es[..k]) == i
  {
    if es[0].Cie? && i == 0 {
      k := 0;
    } else {
      k := CieOfRank(es[1..], if es[0].Cie? then i - 1 else i);
      assert es[..k + 1][1..] == es[1..][..k];
      k := k + 1;
    }
  }

  /** Every rank among the FDEs is some entry's. */
  lemma {:induction false} FdeOfRank(es: seq<Entry>, i: nat) returns (k: nat)
    requires i < FdesIn(es)
    ensures k < |es| && es[k].Fde? && FdesIn(es[..k]) == i
  {
    if es[0].Fde? && i == 0 {
      k := 0;
    } else {
      k := FdeOfRank(es[1..], if es[0].Fde? then i - 1 else i);
      assert es[..k + 1][1..] == es[1..][..k];
      k := k + 1;
    }
  }

  lemma {:induction false} CiesInPrefix(es: seq<Entry>, k: nat)
    requires k <= |es|
    ensures CiesIn(es[..k]) <= CiesIn(es)
  {
    if k > 0 {
      CiesInPrefix(es[1..], k - 1);
      assert es[..k][1..] == es[1..][..k - 1];
    }
  }

  /** In a written section the pointer from an FDE to its CIE leads into the table that
      parsing ends with exactly when all CIEs of the section fit the storage of those
      written before the FDE. */
  lemma PointerSurvivesIff(es: seq<Entry>, tail: seq<byte>, place: Place, k: nat)
    requires AllWritable(es, 0, EMPTY, place) && |Emit(es, 0, EMPTY, place)| < CIE_ID && Terminates(tail)
    requires k < |es| && es[k].Fde?
    ensures var t := Walk(Emit(es, 0, EMPTY, place) + tail, 0, place.isEh, place.host, EMPTY).tables;
            var i := FdesIn(es[..k]);
            && i < |t.fdes|
            && (PointsIntoTable(t, t.fdes[i]) <==> CiesIn(es) <= CapacityAfter(CiesIn(es[..k])))
  {
    hide Walk, Emit, Records, AllWritable, Start, RawFits, Located;
    SectionRoundTrip(es, tail, place);
    RecordOf(es, 0, EMPTY, place, k);
    RecordsCount(es, 0, EMPTY, place);
    CiesInPrefix(es, k);
    StorageKeptIff(CiesIn(es[..k]), CiesIn(es));
  }

  /** A CIE with no instructions. */
  const BARE: Entry := Cie(1, [], 0, 0, 0, 8, 0, [], [])

  function Bare(n: nat): seq<Entry> {
    if n == 0 then [] else [BARE] + Bare(n - 1)
  }

  /** A .debug_frame section mapped at 0. */
  const DEBUG: Place := Place(false, 0)

  /** The entries can be written and take `size` bytes. */
  ghost predicate Takes(es: seq<Entry>, offset: nat, t: Tables, place: Place, size: nat) {
    AllWritable(es, offset, t, place) && |Emit(es, offset, t, place)| == size
  }

  /** Writing one entry in front of others. */
  lemma TakesCons(e: Entry, es: seq<Entry>, offset: nat, t: Tables, place: Place, first: nat, size: nat)
    requires Writable(e, t.cies, offset) && |EntryBytes(e, t.cies, offset, place)| == first
    requires Takes(es, offset + first, Recorded(e, offset, t, place), place, size)
    ensures Takes([e] + es, offset, t, place, first + size)
  {
    hide EntryBytes, Writable, Recorded;
    var all := [e] + es;
    assert all[0] == e && all[1..] == es;
  }

  lemma {:induction false} BareWrites(n: nat, offset: nat, t: Tables)
    ensures Takes(Bare(n), offset, t, DEBUG, 13 * n) && CiesIn(Bare(n)) == n
    decreases n
  {
    if n > 0 {
      BareSize(t.cies, offset);
      hide EntryBytes, Writable, Recorded, Takes;
      BareWrites(n - 1, offset + 13, Recorded(BARE, offset, t, DEBUG));
      TakesCons(BARE, Bare(n - 1), offset, t, DEBUG, 13, 13 * (n - 1));
      CountCons(BARE, Bare(n - 1));
    }
  }

  lemma BareSize(cies: seq<CieRecord>, offset: nat)
    ensures Writable(BARE, cies, offset) && |EntryBytes(BARE, cies, offset, DEBUG)| == 13
  {
    hide EncodeFixed;
    assert EncodeUleb(0) == [0] && EncodeSleb(0) == [0];
  }

  const LINKED: Entry := Fde(0, 0, 0, [], [])

  lemma LinkedSize(cies: seq<CieRecord>, offset: nat)
    requires |cies| > 0 && cies[0].ptrEncoding == 0 && cies[0].augmentation == [] && cies[0].offset < offset
    ensures Writable(LINKED, cies, offset) && |EntryBytes(LINKED, cies, offset, DEBUG)| == 24
  {
    hide EncodeFixed;
  }

  lemma LinkedWrites(n: nat, t: Tables)
    requires |t.cies| > 0 && t.cies[0].ptrEncoding == 0 && t.cies[0].augmentation == [] && t.cies[0].offset < 13
    ensures Takes([LINKED] + Bare(n), 13, t, DEBUG, 24 + 13 * n)
  {
    LinkedSize(t.cies, 13);
    hide EntryBytes, Writable, Recorded, Bare, Takes;
    BareWrites(n, 37, Recorded(LINKED, 13, t, DEBUG));
    TakesCons(LINKED, Bare(n), 13, t, DEBUG, 24, 13 * n);
  }

  /** One CIE, its FDE, and eight more CIEs. */
  function NineCies(): seq<Entry> {
    [BARE, LINKED] + Bare(8)
  }

  lemma NineCiesWrite()
    ensures Takes(NineCies(), 0, EMPTY, DEBUG, 141)
  {
    BareSize([], 0);
    BareRecorded();
    hide EntryBytes, Bare, Recorded, Writable, Takes;
    LinkedWrites(8, Recorded(BARE, 0, EMPTY, DEBUG));
    TakesCons(BARE, [LINKED] + Bare(8), 0, EMPTY, DEBUG, 13, 128);
    assert NineCies() == [BARE] + ([LINKED] + Bare(8));
  }

  lemma BareRecorded()
    ensures Writable(BARE, [], 0)
    ensures var t := Recorded(BARE, 0, EMPTY, DEBUG);
            |t.cies| > 0 && t.cies[0].ptrEncoding == 0 && t.cies[0].augmentation == [] && t.cies[0].offset == 0
  {
  }

  lemma NineCiesCount()
    ensures |NineCies()| > 1 && NineCies()[1].Fde?
    ensures CiesIn(NineCies()) == 9 && CiesIn(NineCies()[..1]) == 1 && FdesIn(NineCies()[..1]) == 0
  {
    hide Bare, Takes, CiesIn, FdesIn;
    var es := NineCies();
    BareWrites(8, 0, EMPTY);
    CountCons(LINKED, Bare(8));
    CountCons(BARE, [LINKED] + Bare(8));
    CountCons(BARE, []);
    assert es == [BARE] + ([LINKED] + Bare(8));
    assert es[..1] == [BARE] + [];
  }

  lemma CountCons(e: Entry, es: seq<Entry>)
    ensures CiesIn([e] + es) == (if e.Cie? then 1 else 0) + CiesIn(es)
    ensures FdesIn([e] + es) == (if e.Fde? then 1 else 0) + FdesIn(es)
    ensures CiesIn([]) == 0 && FdesIn([]) == 0
  {
    assert ([e] + es)[1..] == es;
  }

  /** A section with a lost pointer. */
  lemma NinthCieMovesTheTable()
    ensures AllWritable(NineCies(), 0, EMPTY, DEBUG) && |Emit(NineCies(), 0, EMPTY, DEBUG)| < CIE_ID
    ensures var t := Walk(Emit(NineCies(), 0, EMPTY, DEBUG), 0, false, 0, EMPTY).tables;
            |t.fdes| > 0 && !PointsIntoTable(t, t.fdes[0])
  {
    assert CapacityAfter(1) == 8;
    hide AllWritable, Emit, CiesIn, NineCies, Walk, FdesIn, PointsIntoTable, CapacityAfter;
    NineCiesWrite();
    NineCiesCount();
    PointerSurvivesIff(NineCies(), [], DEBUG, 1);
    assert Emit(NineCies(), 0, EMPTY, DEBUG) + [] == Emit(NineCies(), 0, EMPTY, DEBUG);
  }

  /** The entries tile the section: each ends, by its own length word, where the
      next begins, and the last ends where the written bytes end. */
  lemma {:induction false} EntriesTile(pre: seq<byte>, es: seq<Entry>, tail: seq<byte>, t: Tables, place: Place, k: nat)
    requires AllWritable(es, |pre|, t, place) && Written(t, |pre|) && k < |es|
    requires |pre + Emit(es, |pre|, t, place)| < CIE_ID
    ensures var s := pre + Emit(es, |pre|, t, place) + tail;
            var at := Start(es, |pre|, t, place, k);
            && at + 4 <= |s|
            && Start(es, |pre|, t, place, k + 1) == at + 4 + Word(s, at)
            && Start(es, |pre|, t, place, |es|) == |pre + Emit(es, |pre|, t, place)|
    decreases |es|
  {
    hide EntryAt, EntryBytes, Word, Written, Recorded, Writable;
    var b := EntryBytes(es[0], t.cies, |pre|, place);
    var t' := Recorded(es[0], |pre|, t, place);
    var rest := Emit(es[1..], |pre| + |b|, t', place);
    assert pre + (b + rest) + tail == (pre + b) + rest + tail == pre + b + (rest + tail);
    EntryReads(pre, es[0], rest + tail, t, place);
    RecordedWritten(es[0], |pre|, t, place);
    if k > 0 {
      EntriesTile(pre + b, es[1..], tail, t', place, k - 1);
    } else if |es| > 1 {
      EntriesTile(pre + b, es[1..], tail, t', place, 0);
    }
  }
}
