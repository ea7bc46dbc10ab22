// When the section parser leaves the bytes it was given: the exact condition under
// which a walk ends with `Unspecified`, of whose outcome nothing is claimed.
module CfiBounds {
  import opened Machine
  import opened Leb128
  import opened CfiSection

  /** Where a walk ends, and the tables it has filled by then. */
  datatype Stop = Stop(pos: nat, tables: Tables)

  function StopOf(s: seq<byte>, pos: nat, isEh: bool, host: nat, t: Tables): Stop
    decreases |s| - pos
  {
    if pos + 4 > |s| || Word(s, pos) < 4 || pos + 4 + Word(s, pos) > |s| then Stop(pos, t)
    else
      match EntryAt(s, pos, Word(s, pos), isEh, host, t)
      case Fail(_) => Stop(pos, t)
      case Pass(t') => StopOf(s, pos + 4 + Word(s, pos), isEh, host, t')
  }

  /** The index of the augmentation size in a CIE's bytes after its id, if the entry has
      one and is well formed up to there. */
  function CieSizeIndex(payload: seq<byte>, isEh: bool): (r: Option<nat>)
    ensures r.Some? ==> r.value <= |payload|
  {
    match HeadAt(payload)
    case Fail(_) => None
    case Pass(head) =>
      match AddressSizeAt(payload[head.len..], !isEh && head.value.name.version >= 3)
      case Fail(_) => None
      case Pass(size) => if IsAugmented(head.value.name.augmentation) then Some(head.len + size.len) else None
  }

  /** Likewise in an FDE's bytes after its CIE pointer. */
  function FdeSizeIndex(payload: seq<byte>, cie: CieRecord, address: nat): (r: Option<nat>)
    ensures r.Some? ==> r.value <= |payload|
  {
    match PointersAt(cie.ptrEncoding, payload, address)
    case Fail(_) => None
    case Pass(pointers) => if cie.Augmented() then Some(pointers.len) else None
  }

  /** The size at index `at` of `payload` announces a block whose end wraps. */
  predicate SizeWraps(payload: seq<byte>, at: Option<nat>, address: nat)
    requires at.Some? ==> at.value <= |payload|
  {
    && at.Some?
    && var rest := payload[at.value..];
       var size := Uleb(rest);
       size.Some? && EndWraps(rest, address + at.value, size.value.len, size.value.value)
  }

  /** Reading the entry at `pos` leaves its bytes: it is shorter than its own id, which
      is cut by the section's end or names a CIE that is known, or its augmentation size
      reaches around the address space. */
  predicate Strays(s: seq<byte>, pos: nat, isEh: bool, host: nat, t: Tables) {
    && pos + 4 <= |s|
    && var length := Word(s, pos);
       && 0 < length <= |s| - pos - 4
       && if length < 4 then
            pos + 8 > |s|
            || (Word(s, pos + 4) != IdOfCie(isEh)
                && FindCie(t.cies, CieOffset(pos, Word(s, pos + 4), isEh)).Some?)
          else
            var id, payload := Word(s, pos + 4), s[pos + 8..pos + 4 + length];
            if id == IdOfCie(isEh) then SizeWraps(payload, CieSizeIndex(payload, isEh), host + pos + 8)
            else
              var link := FindCie(t.cies, CieOffset(pos, id, isEh));
              link.Some?
              && SizeWraps(payload, FdeSizeIndex(payload, t.cies[link.value], host + pos + 8), host + pos + 8)
  }

  lemma CieStraysIff(start: nat, payload: seq<byte>, isEh: bool, host: nat)
    ensures CieAt(start, payload, isEh, host) == Fail(Unspecified)
       <==> SizeWraps(payload, CieSizeIndex(payload, isEh), host + start + 8)
  {
    hide HeadAt, AddressSizeAt, AugEncoding, Uleb;
    var head := HeadAt(payload);
    if head.Pass? {
      var rest := payload[head.value.len..];
      var size := AddressSizeAt(rest, !isEh && head.value.value.name.version >= 3);
      if size.Pass? {
        assert rest[size.value.len..] == payload[head.value.len + size.value.len..];
      }
    }
  }

  lemma FdeStraysIff(start: nat, id: u32, payload: seq<byte>, isEh: bool, host: nat, cies: seq<CieRecord>)
    ensures FdeAt(start, id, payload, isEh, host, cies) == Fail(Unspecified)
       <==> var link := FindCie(cies, CieOffset(start, id, isEh));
            link.Some?
            && SizeWraps(payload, FdeSizeIndex(payload, cies[link.value], host + start + 8), host + start + 8)
  {
    hide PointersAt, Uleb;
  }

  /** For every section: parsing leaves the bytes of an entry exactly when the entry it
      stops at makes it. */
  lemma {:induction false} UnspecifiedIffStrays(s: seq<byte>, pos: nat, isEh: bool, host: nat, t: Tables)
    ensures Walk(s, pos, isEh, host, t).status == Unspecified
       <==> var stop := StopOf(s, pos, isEh, host, t);
            Strays(s, stop.pos, isEh, host, stop.tables)
    decreases |s| - pos
  {
    hide CieAt, FdeAt, FindCie, Word, SizeWraps, CieSizeIndex, FdeSizeIndex;
    if pos + 4 <= |s| && 4 <= Word(s, pos) <= |s| - pos - 4 {
      var length := Word(s, pos);
      var id, payload := Word(s, pos + 4), s[pos + 8..pos + 4 + length];
      CieStraysIff(pos, payload, isEh, host);
      FdeStraysIff(pos, id, payload, isEh, host, t.cies);
      var entry := EntryAt(s, pos, length, isEh, host, t);
      if entry.Pass? {
        UnspecifiedIffStrays(s, pos + 4 + length, isEh, host, entry.value);
      }
    }
  }

  /** A short entry that does not make parsing leave its bytes fails the parse. */
  lemma ShortEntryFails(s: seq<byte>, pos: nat, isEh: bool, host: nat, t: Tables)
    requires pos + 4 <= |s| && 1 <= Word(s, pos) < 4 && pos + 4 + Word(s, pos) <= |s|
    ensures Walk(s, pos, isEh, host, t)
         == Walked(if Strays(s, pos, isEh, host, t) then Unspecified else BadFormat, t)
  {
    hide FindCie, Word;
  }

  /** Five bytes suffice: the id of an entry of length 1 is read past the section. */
  lemma FiveBytesStray(last: byte, isEh: bool, host: nat, t: Tables)
    ensures Walk([1, 0, 0, 0, last], 0, isEh, host, t) == Walked(Unspecified, t)
  {
    var s := [1, 0, 0, 0, last];
    FixedOne();
    assert s[0..4] == [1, 0, 0, 0];
  }

  lemma FixedOne()
    ensures LittleEndian([1, 0, 0, 0]) == 1
  {
    assert [1, 0, 0, 0][1..] == [0, 0, 0] && [0, 0, 0][1..] == [0, 0] && [0, 0][1..] == [0] && [0][1..] == [];
    assert LittleEndian([0, 0, 0]) == 0;
  }
}
