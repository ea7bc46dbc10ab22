// Parsing of .debug_frame and .eh_frame sections into CIE and FDE tables.
//
// A section is a byte sequence and `host` is the address it is mapped at. The
// functions state what one record's bytes mean, reading from the front of the
// bytes that remain; the methods walk cursors over the section as the code does.
module CfiSection {
  import opened Machine
  import opened Leb128
  import opened CfiProgram
  import opened GrowVector

  const LETTER_Z: byte := 0x7a
  const LETTER_R: byte := 0x52
  const PE_PCREL: nat := 0x10
  const CIE_ID: u32 := 0xffff_ffff

  datatype CieRecord = CieRecord(
    version: byte, addressSize: byte, returnReg: byte, ptrEncoding: byte,
    dataAlign: i64, codeAlign: u64, offset: nat,
    augmentation: seq<byte>, instructions: seq<byte>)
  {
    function Factors(): Factors {
      CfiProgram.Factors(codeAlign, dataAlign, addressSize)
    }

    predicate Augmented() {
      IsAugmented(augmentation)
    }
  }

  /** The C record points at its CIE inside a growing vector. Here `cie` is the index
      of that record and `storage` the capacity of the storage pointed into, which
      identifies it, as every reallocation enlarges it. */
  datatype FdeRecord = FdeRecord(
    cie: nat, storage: nat, offset: nat, pcBegin: u64, pcRange: u64, instructions: seq<byte>)

  datatype Tables = Tables(cies: seq<CieRecord>, fdes: seq<FdeRecord>)

  function Need<T>(o: Option<T>): Result<T> {
    match o
    case None => Fail(BadFormat)
    case Some(v) => Pass(v)
  }

  /** The first CIE recorded at `offset`. */
  function FindCie(cies: seq<CieRecord>, offset: nat): (r: Option<nat>)
    ensures r.Some? ==> r.value < |cies| && cies[r.value].offset == offset
    ensures r.Some? ==> forall i :: 0 <= i < r.value ==> cies[i].offset != offset
    ensures r.None? ==> forall i :: 0 <= i < |cies| ==> cies[i].offset != offset
  {
    if cies == [] then None
    else if cies[0].offset == offset then Some(0)
    else
      var r := FindCie(cies[1..], offset);
      assert forall i :: 1 <= i < |cies| ==> cies[i] == cies[1..][i - 1];
      if r.None? then None else Some(r.value + 1)
  }

  /** `strnlen`: the bytes before the first NUL. */
  function StrLen(s: seq<byte>): (n: nat)
    ensures n <= |s|
    ensures n < |s| ==> s[n] == 0
    ensures forall i :: 0 <= i < n ==> s[i] != 0
  {
    if s == [] || s[0] == 0 then 0 else 1 + StrLen(s[1..])
  }

  /** The pointer encoding named by the letters after 'z': the last leading 'R'. */
  function AugEncoding(letters: seq<byte>, data: seq<byte>, encoding: byte): (r: Result<byte>)
    ensures r.Fail? ==> r.status == BadFormat
  {
    if letters == [] || letters[0] != LETTER_R then Pass(encoding)
    else if data == [] then Fail(BadFormat)
    else AugEncoding(letters[1..], data[1..], data[0])
  }

  /** The operand width of a pointer encoding; 0 stands for ULEB128. */
  function PointerWidth(encoding: byte): (r: Result<nat>)
    ensures r.Pass? ==> r.value == 0 || IsWidth(r.value)
    ensures r.Fail? ==> r.status == NotImplemented
  {
    var format := if encoding == 0 then 4 else encoding % 16;
    if format == 4 || format == 7 then Pass(8)
    else if format == 3 || format == 6 then Pass(4)
    else if format == 2 then Pass(2)
    else if format == 1 then Pass(0)
    else Fail(NotImplemented)
  }

  /** An encoded pointer at the front of `s`, whose first byte is mapped at
      `address`. */
  function EncodedPointer(encoding: byte, s: seq<byte>, address: nat): (r: Result<Read<u64>>)
    ensures r.Pass? ==> r.value.len <= |s|
    ensures r.Fail? ==> r.status == BadFormat || r.status == NotImplemented
  {
    var width :- PointerWidth(encoding);
    var raw :- Need(if width == 0 then Uleb(s) else Fixed(s, width));
    var application := encoding / 16 % 8 * 16;
    if application == 0 then Pass(raw)
    else if application == PE_PCREL then Pass(Read(Wrap(raw.value + address + raw.len), raw.len))
    else Fail(NotImplemented)
  }

  /** The initial location and the range of an FDE. */
  function PointersAt(encoding: byte, s: seq<byte>, address: nat): (r: Result<Read<(u64, u64)>>)
    ensures r.Pass? ==> r.value.len <= |s|
    ensures r.Fail? ==> r.status == BadFormat || r.status == NotImplemented
  {
    var begin :- EncodedPointer(encoding, s, address);
    var range :- EncodedPointer(encoding % 16, s[begin.len..], address + begin.len);
    Pass(Read((begin.value, range.value), begin.len + range.len))
  }

  /** A block of `size` bytes behind the first `len` bytes of `s`, whose first byte is
      mapped at `address`, does not fit, and its end wraps at 2^64: the code then takes
      it to fit and goes on in front of it. */
  predicate EndWraps(s: seq<byte>, address: nat, len: nat, size: u64) {
    len + size > |s| && address + len + size > U64_MAX
  }

  /** The size of a block that fits in `s` behind it. */
  function SizedAt(s: seq<byte>, address: nat): (r: Result<Read<u64>>)
    ensures r.Pass? ==> r.value.len + r.value.value <= |s|
    ensures r.Fail? ==> r.status == BadFormat || r.status == Unspecified
  {
    var size :- Need(Uleb(s));
    if EndWraps(s, address, size.len, size.value) then Fail(Unspecified)
    else if size.len + size.value > |s| then Fail(BadFormat)
    else Pass(size)
  }

  /** Length of a sized augmentation block with its size. */
  function SkipAt(s: seq<byte>, address: nat): (r: Result<nat>)
    ensures r.Pass? ==> r.value <= |s|
    ensures r.Fail? ==> r.status == BadFormat || r.status == Unspecified
  {
    var size :- SizedAt(s, address);
    Pass(size.len + size.value)
  }

  datatype Name = Name(version: byte, augmentation: seq<byte>)

  datatype Alignments = Alignments(code: u64, data: i64, returnReg: u64)

  /** The version byte and the augmentation string with its NUL. */
  function NameAt(s: seq<byte>): (r: Result<Read<Name>>)
    ensures r.Pass? ==> r.value.len <= |s|
    ensures r.Fail? ==> r.status == BadFormat
  {
    if s == [] then Fail(BadFormat)
    else
      var augLen := StrLen(s[1..]);
      if 1 + augLen >= |s| then Fail(BadFormat)
      else Pass(Read(Name(s[0], s[1..][..augLen]), augLen + 2))
  }

  /** The alignment factors and the return register. */
  function AlignmentsAt(s: seq<byte>): (r: Result<Read<Alignments>>)
    ensures r.Pass? ==> r.value.len <= |s|
    ensures r.Fail? ==> r.status == BadFormat
  {
    var code :- Need(Uleb(s));
    var data :- Need(Sleb(s[code.len..]));
    var reg :- Need(Uleb(s[code.len + data.len..]));
    Pass(Read(Alignments(code.value, data.value, reg.value), code.len + data.len + reg.len))
  }

  /** The address size, present only when `sized`, with the segment size after it. */
  function AddressSizeAt(s: seq<byte>, sized: bool): (r: Result<Read<byte>>)
    ensures r.Pass? ==> r.value.len <= |s|
    ensures r.Fail? ==> r.status == BadFormat
  {
    if !sized then Pass(Read(8, 0))
    else if |s| < 2 then Fail(BadFormat)
    else Pass(Read(s[0], 2))
  }

  predicate IsAugmented(augmentation: seq<byte>) {
    augmentation != [] && augmentation[0] == LETTER_Z
  }

  /** The sized augmentation data, present only after a 'z': the pointer encoding. */
  function AugmentationAt(s: seq<byte>, augmentation: seq<byte>, address: nat): (r: Result<Read<byte>>)
    ensures r.Pass? ==> r.value.len <= |s|
    ensures r.Fail? ==> r.status == BadFormat || r.status == Unspecified
  {
    if !IsAugmented(augmentation) then Pass(Read(0, 0))
    else
      var size :- SizedAt(s, address);
      var encoding :- AugEncoding(augmentation[1..], s[size.len..][..size.value], 0);
      Pass(Read(encoding, size.len + size.value))
  }

  datatype Head = Head(name: Name, factors: Alignments)

  /** The part of a CIE common to every version. */
  function HeadAt(s: seq<byte>): (r: Result<Read<Head>>)
    ensures r.Pass? ==> r.value.len <= |s|
    ensures r.Fail? ==> r.status == BadFormat
  {
    var name :- NameAt(s);
    var factors :- AlignmentsAt(s[name.len..]);
    Pass(Read(Head(name.value, factors.value), name.len + factors.len))
  }

  datatype Coding = Coding(addressSize: byte, ptrEncoding: byte)

  /** The optional parts: address size, then augmentation data. */
  function CodingAt(s: seq<byte>, name: Name, isEh: bool, address: nat): (r: Result<Read<Coding>>)
    ensures r.Pass? ==> r.value.len <= |s|
    ensures r.Fail? ==> r.status == BadFormat || r.status == Unspecified
  {
    var size :- AddressSizeAt(s, !isEh && name.version >= 3);
    var encoding :- AugmentationAt(s[size.len..], name.augmentation, address + size.len);
    Pass(Read(Coding(size.value, encoding.value), size.len + encoding.len))
  }

  /** The CIE entry that starts at `start` and whose bytes after the id are
      `payload`. */
  function CieAt(start: nat, payload: seq<byte>, isEh: bool, host: nat): (r: Result<CieRecord>)
    ensures r.Fail? ==> r.status == BadFormat || r.status == Unspecified
  {
    var head :- HeadAt(payload);
    var rest := payload[head.len..];
    var coding :- CodingAt(rest, head.value.name, isEh, host + start + 8 + head.len);
    Pass(MakeCie(head.value, coding.value, start, rest[coding.len..]))
  }

  function MakeCie(head: Head, coding: Coding, start: nat, instructions: seq<byte>): CieRecord {
    CieRecord(head.name.version, coding.addressSize, head.factors.returnReg % 256, coding.ptrEncoding,
              head.factors.data, head.factors.code, start, head.name.augmentation, instructions)
  }

  /** The offset of the CIE that an FDE at `start` points to. */
  function CieOffset(start: nat, ciePointer: u32, isEh: bool): nat {
    if isEh then Wrap(start + 8 - ciePointer) else ciePointer
  }

  /** The FDE entry that starts at `start` and whose bytes after the pointer are
      `payload`. */
  function FdeAt(start: nat, ciePointer: u32, payload: seq<byte>, isEh: bool, host: nat, cies: seq<CieRecord>)
    : (r: Result<FdeRecord>)
    ensures r.Fail? ==> r.status == BadFormat || r.status == NotImplemented || r.status == Unspecified
  {
    var link :- Need(FindCie(cies, CieOffset(start, ciePointer, isEh)));
    var cie := cies[link];
    var pointers :- PointersAt(cie.ptrEncoding, payload, host + start + 8);
    var s1 := payload[pointers.len..];
    var skip :- if cie.Augmented() then SkipAt(s1, host + start + 8 + pointers.len) else Pass(0);
    Pass(FdeRecord(link, CapacityAfter(|cies|), start, pointers.value.0, pointers.value.1, s1[skip..]))
  }

  datatype Walked = Walked(status: Status, tables: Tables)

  function IdOfCie(isEh: bool): u32 {
    if isEh then 0 else CIE_ID
  }

  /** The little-endian 32-bit word at index `at`. */
  function Word(s: seq<byte>, at: nat): (w: u32)
    requires at + 4 <= |s|
  {
    LittleEndianBound(s[at..at + 4]);
    WidthLimitIsPow2(4);
    LittleEndian(s[at..at + 4])
  }

  /** What an entry of fewer than four bytes leads to. Its id lies outside the
      entry; the code still rejects a CIE and an unlinked FDE, and otherwise
      reads beyond the entry. */
  function ShortEntry(s: seq<byte>, start: nat, isEh: bool, cies: seq<CieRecord>): Failure
    requires start + 4 <= |s|
  {
    if start + 8 > |s| then Unspecified
    else if Word(s, start + 4) == IdOfCie(isEh) then BadFormat
    else if FindCie(cies, CieOffset(start, Word(s, start + 4), isEh)).None? then BadFormat
    else Unspecified
  }

  /** One entry with its id: the tables after it, or a failure. */
  function EntryAt(s: seq<byte>, start: nat, length: nat, isEh: bool, host: nat, t: Tables): (r: Result<Tables>)
    requires 4 <= length && start + 4 + length <= |s|
    ensures r.Fail? ==> r.status == BadFormat || r.status == NotImplemented || r.status == Unspecified
  {
    var id, payload := Word(s, start + 4), s[start + 8..start + 4 + length];
    if id == IdOfCie(isEh) then
      var cie :- CieAt(start, payload, isEh, host);
      Pass(t.(cies := t.cies + [cie]))
    else
      var fde :- FdeAt(start, id, payload, isEh, host, t.cies);
      Pass(t.(fdes := t.fdes + [fde]))
  }

  /** The section from `pos` on, entry by entry. */
  function Walk(s: seq<byte>, pos: nat, isEh: bool, host: nat, t: Tables): (w: Walked)
    ensures w.status == Ok || w.status == BadFormat || w.status == NotImplemented || w.status == Unspecified
    decreases |s| - pos
  {
    if pos + 4 > |s| then Walked(Ok, t)
    else
      var length := Word(s, pos);
      if length == 0 then Walked(Ok, t)
      else if pos + 4 + length > |s| then Walked(BadFormat, t)
      else if length < 4 then Walked(ShortEntry(s, pos, isEh, t.cies), t)
      else
        match EntryAt(s, pos, length, isEh, host, t)
        case Fail(st) => Walked(st, t)
        case Pass(t') => Walk(s, pos + 4 + length, isEh, host, t')
  }

  // ---------------------------------------------------------------------
  // The parsers

  /** `find_cie`. */
  method FindCieRecord(cies: Vector<CieRecord>, offset: nat) returns (r: Option<nat>)
    requires cies.Valid()
    ensures r == FindCie(cies.Contents(), offset)
  {
    var i := 0;
    while i < cies.count
      invariant i <= cies.count
      invariant forall j :: 0 <= j < i ==> cies.data[j].offset != offset
    {
      if cies.data[i].offset == offset {
        return Some(i);
      }
      i := i + 1;
    }
    return None;
  }

  lemma StrLenIs(s: seq<byte>, n: nat)
    requires n <= |s| && (n < |s| ==> s[n] == 0)
    requires forall i :: 0 <= i < n ==> s[i] != 0
    ensures StrLen(s) == n
  {
  }

  /** `strnlen`: the distance from `from` to the first NUL before `end`. */
  method StrNLen(s: seq<byte>, from: nat, end: nat) returns (n: nat)
    requires from <= end <= |s|
    ensures n == StrLen(s[from..end])
  {
    n := 0;
    while from + n < end && s[from + n] != 0
      invariant from + n <= end
      invariant forall i :: 0 <= i < n ==> s[from..end][i] != 0
    {
      n := n + 1;
    }
    StrLenIs(s[from..end], n);
  }

  /** The loop over the augmentation letters after 'z'. */
  method ReadAugEncoding(s: seq<byte>, payload: nat, augEnd: nat, augmentation: seq<byte>)
    returns (r: Result<byte>)
    requires payload <= augEnd <= |s| && augmentation != []
    ensures r == AugEncoding(augmentation[1..], s[payload..augEnd], 0)
  {
    var i, cursor, encoding: byte := 1, payload, 0;
    while i < |augmentation|
      invariant 1 <= i <= |augmentation| && payload <= cursor <= augEnd
      invariant AugEncoding(augmentation[1..], s[payload..augEnd], 0)
             == AugEncoding(augmentation[i..], s[cursor..augEnd], encoding)
    {
      if augmentation[i] != LETTER_R {
        break;
      }
      if cursor >= augEnd {
        return Fail(BadFormat);
      }
      assert augmentation[i..][1..] == augmentation[i + 1..];
      assert s[cursor..augEnd][1..] == s[cursor + 1..augEnd];
      encoding := s[cursor];
      cursor, i := cursor + 1, i + 1;
    }
    return Pass(encoding);
  }

  /** `read_encoded_pointer`, its cursor being the index `cursor` of the section. */
  method ReadEncodedPointer(encoding: byte, s: seq<byte>, cursor: nat, end: nat, host: nat)
    returns (st: Status, next: nat, value: u64)
    requires cursor <= end <= |s|
    ensures st == Ok ==> cursor <= next <= end
    ensures EncodedPointer(encoding, s[cursor..end], host + cursor)
         == if st == Ok then Pass(Read(value, next - cursor)) else Fail(st)
  {
    var format := if encoding == 0 then 4 else encoding % 16;
    var application := encoding / 16 % 8 * 16;
    match format {
      case 4 => st, next, value := ReadFixed(s, cursor, end, 8);
      case 3 => st, next, value := ReadFixed(s, cursor, end, 4);
      case 2 => st, next, value := ReadFixed(s, cursor, end, 2);
      case 1 => st, next, value := ReadUleb(s, cursor, end);
      case 6 => st, next, value := ReadFixed(s, cursor, end, 4);
      case 7 => st, next, value := ReadFixed(s, cursor, end, 8);
      case _ => return NotImplemented, cursor, 0;
    }
    if st != Ok {
      return;
    }
    if application == PE_PCREL {
      value := Wrap(value + host + next);
    } else if application != 0 {
      return NotImplemented, next, 0;
    }
  }

  lemma SliceDrop(s: seq<byte>, cursor: nat, end: nat, n: nat)
    requires cursor + n <= end <= |s|
    ensures s[cursor..end][n..] == s[cursor + n..end]
  {
  }

  method ReadName(s: seq<byte>, cursor: nat, end: nat) returns (r: Result<Name>, next: nat)
    requires cursor <= end <= |s|
    ensures r.Pass? ==> cursor <= next <= end
    ensures NameAt(s[cursor..end]) == if r.Pass? then Pass(Read(r.value, next - cursor)) else Fail(r.status)
  {
    if cursor >= end {
      return Fail(BadFormat), cursor;
    }
    SliceDrop(s, cursor, end, 1);
    var augLen := StrNLen(s, cursor + 1, end);
    if cursor + 1 + augLen >= end {
      return Fail(BadFormat), cursor;
    }
    assert s[cursor + 1..end][..augLen] == s[cursor + 1..cursor + 1 + augLen];
    return Pass(Name(s[cursor], s[cursor + 1..cursor + 1 + augLen])), cursor + augLen + 2;
  }

  method ReadAlignments(s: seq<byte>, cursor: nat, end: nat) returns (r: Result<Alignments>, next: nat)
    requires cursor <= end <= |s|
    ensures r.Pass? ==> cursor <= next <= end
    ensures AlignmentsAt(s[cursor..end]) == if r.Pass? then Pass(Read(r.value, next - cursor)) else Fail(r.status)
  {
    hide Uleb, Sleb;
    var st, code, data, reg;
    st, next, code := ReadUleb(s, cursor, end);
    if st != Ok {
      return Fail(st), next;
    }
    SliceDrop(s, cursor, end, next - cursor);
    st, next, data := ReadSleb(s, next, end);
    if st != Ok {
      return Fail(st), next;
    }
    SliceDrop(s, cursor, end, next - cursor);
    st, next, reg := ReadUleb(s, next, end);
    if st != Ok {
      return Fail(st), next;
    }
    return Pass(Alignments(code, data, reg)), next;
  }

  method ReadAddressSize(s: seq<byte>, cursor: nat, end: nat, sized: bool) returns (r: Result<byte>, next: nat)
    requires cursor <= end <= |s|
    ensures r.Pass? ==> cursor <= next <= end
    ensures AddressSizeAt(s[cursor..end], sized)
         == if r.Pass? then Pass(Read(r.value, next - cursor)) else Fail(r.status)
  {
    if !sized {
      return Pass(8), cursor;
    }
    if cursor + 2 > end {
      return Fail(BadFormat), cursor;
    }
    return Pass(s[cursor]), cursor + 2;
  }

  method ReadAugmentation(s: seq<byte>, cursor: nat, end: nat, augmentation: seq<byte>, host: nat)
    returns (r: Result<byte>, next: nat)
    requires cursor <= end <= |s|
    ensures r.Pass? ==> cursor <= next <= end
    ensures AugmentationAt(s[cursor..end], augmentation, host + cursor)
         == if r.Pass? then Pass(Read(r.value, next - cursor)) else Fail(r.status)
  {
    hide Uleb;
    if augmentation == [] || augmentation[0] != LETTER_Z {
      return Pass(0), cursor;
    }
    var st, augSize;
    st, next, augSize := ReadUleb(s, cursor, end);
    if st != Ok {
      return Fail(st), next;
    }
    SliceDrop(s, cursor, end, next - cursor);
    if next + augSize > end {
      return Fail(if host + next + augSize > U64_MAX then Unspecified else BadFormat), next;
    }
    assert s[next..end][..augSize] == s[next..next + augSize];
    r := ReadAugEncoding(s, next, next + augSize, augmentation);
    next := next + augSize;
  }

  method ReadHead(s: seq<byte>, cursor: nat, end: nat) returns (r: Result<Head>, next: nat)
    requires cursor <= end <= |s|
    ensures r.Pass? ==> cursor <= next <= end
    ensures HeadAt(s[cursor..end]) == if r.Pass? then Pass(Read(r.value, next - cursor)) else Fail(r.status)
  {
    hide NameAt, AlignmentsAt;
    var name, c1 := ReadName(s, cursor, end);
    if name.Fail? {
      return Fail(name.status), c1;
    }
    SliceDrop(s, cursor, end, c1 - cursor);
    var factors, c2 := ReadAlignments(s, c1, end);
    if factors.Fail? {
      return Fail(factors.status), c2;
    }
    return Pass(Head(name.value, factors.value)), c2;
  }

  method ReadCoding(s: seq<byte>, cursor: nat, end: nat, name: Name, isEh: bool, host: nat)
    returns (r: Result<Coding>, next: nat)
    requires cursor <= end <= |s|
    ensures r.Pass? ==> cursor <= next <= end
    ensures CodingAt(s[cursor..end], name, isEh, host + cursor)
         == if r.Pass? then Pass(Read(r.value, next - cursor)) else Fail(r.status)
  {
    hide AddressSizeAt, AugmentationAt;
    var size, c1 := ReadAddressSize(s, cursor, end, !isEh && name.version >= 3);
    if size.Fail? {
      return Fail(size.status), c1;
    }
    SliceDrop(s, cursor, end, c1 - cursor);
    var encoding, c2 := ReadAugmentation(s, c1, end, name.augmentation, host);
    if encoding.Fail? {
      return Fail(encoding.status), c2;
    }
    return Pass(Coding(size.value, encoding.value)), c2;
  }

  /** The fields of a CIE, in their order. */
  method ReadCie(s: seq<byte>, start: nat, payload: nat, end: nat, isEh: bool, host: nat)
    returns (r: Result<CieRecord>)
    requires payload == start + 8 <= end <= |s|
    ensures r == CieAt(start, s[payload..end], isEh, host)
  {
    hide HeadAt, CodingAt;
    var head, c1 := ReadHead(s, payload, end);
    if head.Fail? {
      return Fail(head.status);
    }
    SliceDrop(s, payload, end, c1 - payload);
    var coding, c2 := ReadCoding(s, c1, end, head.value.name, isEh, host);
    if coding.Fail? {
      return Fail(coding.status);
    }
    SliceDrop(s, c1, end, c2 - c1);
    return Pass(MakeCie(head.value, coding.value, start, s[c2..end]));
  }

  /** `parse_cie`. */
  method ParseCie(s: seq<byte>, start: nat, payload: nat, end: nat, isEh: bool, host: nat, cies: Vector<CieRecord>)
    returns (st: Status)
    requires payload == start + 8 <= end <= |s|
    requires cies.Valid()
    modifies cies, cies.data
    ensures cies.Valid()
    ensures cies.data == old(cies.data) || (fresh(cies.data) && cies.data.Length > old(cies.data.Length))
    ensures match CieAt(start, s[payload..end], isEh, host)
            case Pass(cie) => st == Ok && cies.Contents() == old(cies.Contents()) + [cie]
            case Fail(e) => st == e && cies.Contents() == old(cies.Contents())
  {
    var cie := ReadCie(s, start, payload, end, isEh, host);
    if cie.Fail? {
      return cie.status;
    }
    cies.Append(cie.value);
    return Ok;
  }

  method ReadPointers(encoding: byte, s: seq<byte>, cursor: nat, end: nat, host: nat)
    returns (r: Result<(u64, u64)>, next: nat)
    requires cursor <= end <= |s|
    ensures r.Pass? ==> cursor <= next <= end
    ensures PointersAt(encoding, s[cursor..end], host + cursor)
         == if r.Pass? then Pass(Read(r.value, next - cursor)) else Fail(r.status)
  {
    hide EncodedPointer;
    var st, begin, range;
    st, next, begin := ReadEncodedPointer(encoding, s, cursor, end, host);
    if st != Ok {
      return Fail(st), next;
    }
    SliceDrop(s, cursor, end, next - cursor);
    st, next, range := ReadEncodedPointer(encoding % 16, s, next, end, host);
    if st != Ok {
      return Fail(st), next;
    }
    return Pass((begin, range)), next;
  }

  method ReadSkip(s: seq<byte>, cursor: nat, end: nat, host: nat) returns (r: Result<nat>)
    requires cursor <= end <= |s|
    ensures r.Pass? ==> cursor <= r.value <= end
    ensures SkipAt(s[cursor..end], host + cursor) == if r.Pass? then Pass(r.value - cursor) else Fail(r.status)
  {
    hide Uleb;
    var st, next, size := ReadUleb(s, cursor, end);
    if st != Ok {
      return Fail(st);
    }
    if next + size > end {
      return Fail(if host + next + size > U64_MAX then Unspecified else BadFormat);
    }
    return Pass(next + size);
  }

  /** `parse_fde`. */
  method ParseFde(s: seq<byte>, start: nat, ciePointer: u32, payload: nat, end: nat, isEh: bool, host: nat,
                  cies: Vector<CieRecord>, fdes: Vector<FdeRecord>)
    returns (st: Status)
    requires payload == start + 8 <= end <= |s|
    requires cies.Valid() && fdes.Valid()
    modifies fdes, fdes.data
    ensures fdes.Valid() && (fdes.data == old(fdes.data) || fresh(fdes.data))
    ensures match FdeAt(start, ciePointer, s[payload..end], isEh, host, old(cies.Contents()))
            case Pass(fde) => st == Ok && fdes.Contents() == old(fdes.Contents()) + [fde]
            case Fail(e) => st == e && fdes.Contents() == old(fdes.Contents())
  {
    hide PointersAt, SkipAt, FindCie;
    var link := FindCieRecord(cies, CieOffset(start, ciePointer, isEh));
    if link.None? {
      return BadFormat;
    }
    var cie := cies.data[link.value];
    var pointers, c1 := ReadPointers(cie.ptrEncoding, s, payload, end, host);
    if pointers.Fail? {
      return pointers.status;
    }
    SliceDrop(s, payload, end, c1 - payload);
    var c2 := c1;
    if cie.Augmented() {
      var skip := ReadSkip(s, c1, end, host);
      if skip.Fail? {
        return skip.status;
      }
      c2 := skip.value;
      SliceDrop(s, c1, end, c2 - c1);
    }
    fdes.Append(FdeRecord(link.value, cies.data.Length, start, pointers.value.0, pointers.value.1, s[c2..end]));
    return Ok;
  }

  /** `parse_section`. */
  method ParseSection(s: seq<byte>, isEh: bool, host: nat, cies: Vector<CieRecord>, fdes: Vector<FdeRecord>)
    returns (st: Status)
    requires cies.Valid() && fdes.Valid()
    modifies cies, cies.data, fdes, fdes.data
    ensures cies.Valid() && fdes.Valid()
    ensures cies.data == old(cies.data) || (fresh(cies.data) && cies.data.Length > old(cies.data.Length))
    ensures fdes.data == old(fdes.data) || fresh(fdes.data)
    ensures Walked(st, Tables(cies.Contents(), fdes.Contents()))
         == Walk(s, 0, isEh, host, old(Tables(cies.Contents(), fdes.Contents())))
  {
    hide CieAt, FdeAt, FindCie, Word;
    var ptr := 0;
    while ptr + 4 <= |s|
      invariant cies.Valid() && fdes.Valid()
      invariant cies.data == old(cies.data) || (fresh(cies.data) && cies.data.Length > old(cies.data.Length))
      invariant fdes.data == old(fdes.data) || fresh(fdes.data)
      invariant Walk(s, ptr, isEh, host, Tables(cies.Contents(), fdes.Contents()))
             == Walk(s, 0, isEh, host, old(Tables(cies.Contents(), fdes.Contents())))
      decreases |s| - ptr
    {
      var start := ptr;
      var length := Word(s, ptr);
      if length == 0 {
        break;
      }
      if ptr + 4 + length > |s| {
        return BadFormat;
      }
      if length < 4 {
        st := ParseShort(s, start, isEh, cies);
        return;
      }
      var end := start + 4 + length;
      var id := Word(s, start + 4);
      if id == IdOfCie(isEh) {
        st := ParseCie(s, start, start + 8, end, isEh, host, cies);
      } else {
        st := ParseFde(s, start, id, start + 8, end, isEh, host, cies, fdes);
      }
      if st != Ok {
        return;
      }
      ptr := end;
    }
    return Ok;
  }

  /** An entry too short to hold its own id. */
  method ParseShort(s: seq<byte>, start: nat, isEh: bool, cies: Vector<CieRecord>) returns (st: Failure)
    requires start + 4 <= |s| && cies.Valid()
    ensures st == ShortEntry(s, start, isEh, cies.Contents())
  {
    if start + 8 > |s| {
      return Unspecified;
    }
    var id := Word(s, start + 4);
    if id == IdOfCie(isEh) {
      return BadFormat;
    }
    var link := FindCieRecord(cies, CieOffset(start, id, isEh));
    return if link.None? then BadFormat else Unspecified;
  }
}
