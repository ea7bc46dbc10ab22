// The symbol tables of examples/memleak_bcc_dwunw/trace_helpers.c: the growing
// string arena of kernel symbols, and the two binary searches.
module Symbols {
  import opened Machine

  const NUL: char := '\0'

  /** A symbol while the table is built: its name is an offset into the arena. */
  datatype Ksym = Ksym(name: nat, addr: u64)

  datatype Named = Named(name: string, addr: u64)

  ghost predicate NoNul(name: string) {
    forall i :: 0 <= i < |name| ==> name[i] != NUL
  }

  /** The C string at an offset of the arena. */
  function CString(strs: seq<char>, at: nat): (s: string)
    requires at <= |strs|
    ensures at + |s| <= |strs| && s == strs[at..at + |s|]
    ensures NoNul(s)
    ensures at + |s| < |strs| ==> strs[at + |s|] == NUL
    decreases |strs| - at
  {
    if at == |strs| || strs[at] == NUL then [] else [strs[at]] + CString(strs, at + 1)
  }

  /** The string at an offset is the characters up to the first NUL. */
  lemma {:induction false} CStringIs(strs: seq<char>, at: nat, name: string)
    requires NoNul(name) && at + |name| < |strs|
    requires strs[at..at + |name|] == name && strs[at + |name|] == NUL
    ensures CString(strs, at) == name
    decreases |name|
  {
    if name != [] {
      assert strs[at] == name[0];
      assert strs[at + 1..at + |name|] == name[1..];
      CStringIs(strs, at + 1, name[1..]);
    }
  }

  /** The capacity after growing to hold `need`: a third more, at least 1024. */
  function GrownStrs(cap: nat, need: nat): (c: nat)
    ensures need <= c && 1024 <= c
  {
    var third := cap * 4 / 3;
    var c := if third < need then need else third;
    if c < 1024 then 1024 else c
  }

  function GrownSyms(cap: nat): (c: nat)
    ensures cap < c
  {
    var third := cap * 4 / 3;
    if third < 1024 then 1024 else third
  }

  /** Both capacities grow to the largest of a third more, 1024 and, for strings, the
      need. */
  lemma GrowthOutcome(cap: nat, need: nat)
    ensures var c := GrownStrs(cap, need);
            && need <= c && 1024 <= c && 4 * cap < 3 * (c + 1)
            && (c == need || c == 1024 || 3 * c <= 4 * cap)
    ensures var c := GrownSyms(cap);
            && 1024 <= c && 4 * cap < 3 * (c + 1)
            && (c == 1024 || 3 * c <= 4 * cap)
  {
  }

  /** `name` and its NUL stand at an offset of the arena. */
  ghost predicate Region(strs: seq<char>, at: nat, name: string) {
    && NoNul(name)
    && at + |name| < |strs|
    && strs[at..at + |name|] == name
    && strs[at + |name|] == NUL
  }

  /** The arena holds the names in order, each with its NUL, end to end. */
  ghost predicate Tiles(syms: seq<Ksym>, strs: seq<char>, names: seq<Named>) {
    && |syms| == |names|
    && (forall i :: 0 <= i < |syms| ==> syms[i].addr == names[i].addr && Region(strs, syms[i].name, names[i].name))
    && (forall i :: 0 <= i < |syms| - 1 ==> syms[i + 1].name == syms[i].name + |names[i].name| + 1)
    && (if syms == [] then strs == []
        else syms[0].name == 0 && |strs| == syms[|syms| - 1].name + |names[|syms| - 1].name| + 1)
  }

  /** Every stored offset yields exactly the name that was added. */
  lemma TilesGiveNames(syms: seq<Ksym>, strs: seq<char>, names: seq<Named>, i: nat)
    requires Tiles(syms, strs, names) && i < |syms|
    ensures syms[i].name <= |strs| && CString(strs, syms[i].name) == names[i].name
  {
    hide CString;
    assert Region(strs, syms[i].name, names[i].name);
    CStringIs(strs, syms[i].name, names[i].name);
  }

  /** The regions of two symbols do not overlap. */
  lemma {:induction false} TilesDoNotOverlap(syms: seq<Ksym>, strs: seq<char>, names: seq<Named>, i: nat, j: nat)
    requires Tiles(syms, strs, names) && i < j < |syms|
    ensures syms[i].name + |names[i].name| + 1 <= syms[j].name
    decreases j
  {
    assert syms[j - 1 + 1].name == syms[j - 1].name + |names[j - 1].name| + 1;
    if i < j - 1 {
      TilesDoNotOverlap(syms, strs, names, i, j - 1);
    }
  }

  lemma RegionAppend(strs: seq<char>, more: seq<char>, at: nat, name: string)
    requires Region(strs, at, name)
    ensures Region(strs + more, at, name)
  {
    assert (strs + more)[at..at + |name|] == strs[at..at + |name|];
  }

  lemma RegionNew(strs: seq<char>, name: string)
    requires NoNul(name)
    ensures Region(strs + (name + [NUL]), |strs|, name)
  {
    var s := strs + (name + [NUL]);
    assert s[|strs|..|strs| + |name|] == name;
  }

  lemma TilesSnoc(syms: seq<Ksym>, strs: seq<char>, names: seq<Named>, name: string, addr: u64)
    requires Tiles(syms, strs, names) && NoNul(name)
    ensures Tiles(syms + [Ksym(|strs|, addr)], strs + (name + [NUL]), names + [Named(name, addr)])
  {
    hide Region;
    var syms', strs', names' := syms + [Ksym(|strs|, addr)], strs + (name + [NUL]), names + [Named(name, addr)];
    forall i | 0 <= i < |syms'|
      ensures syms'[i].addr == names'[i].addr && Region(strs', syms'[i].name, names'[i].name)
    {
      if i < |syms| {
        RegionAppend(strs, name + [NUL], syms[i].name, names[i].name);
      } else {
        RegionNew(strs, name);
      }
    }
  }

  /** `struct ksyms` under construction. */
  class Ksyms {
    var syms: array<Ksym>
    var symsSize: nat
    var strs: array<char>
    var strsSize: nat
    ghost var names: seq<Named>

    ghost predicate Valid()
      reads this, syms, strs
    {
      && symsSize <= syms.Length
      && strsSize <= strs.Length
      && Tiles(syms[..symsSize], strs[..strsSize], names)
    }

    constructor ()
      ensures Valid() && fresh(syms) && fresh(strs) && names == []
    {
      syms, symsSize := new Ksym[0], 0;
      strs, strsSize := new char[0], 0;
      names := [];
      new;
      assert syms[..0] == [] && strs[..0] == [];
    }

    /** The reallocation of the arena. */
    method GrowStrs(need: nat)
      requires strsSize <= strs.Length && need > strs.Length
      modifies this`strs
      ensures fresh(strs) && strs.Length == GrownStrs(old(strs.Length), need)
      ensures strs[..strsSize] == old(strs[..strsSize])
    {
      var tmp := new char[GrownStrs(strs.Length, need)];
      forall i | 0 <= i < strsSize {
        tmp[i] := strs[i];
      }
      strs := tmp;
    }

    method GrowSyms()
      requires symsSize <= syms.Length
      modifies this`syms
      ensures fresh(syms) && syms.Length == GrownSyms(old(syms.Length))
      ensures syms[..symsSize] == old(syms[..symsSize])
    {
      var tmp := new Ksym[GrownSyms(syms.Length)];
      forall i | 0 <= i < symsSize {
        tmp[i] := syms[i];
      }
      syms := tmp;
    }

    /** `memcpy` of the name with its NUL to the end of the arena. */
    method CopyName(name: string)
      requires strsSize + |name| + 1 <= strs.Length
      modifies strs
      ensures strs[..strsSize + |name| + 1] == old(strs[..strsSize]) + (name + [NUL])
    {
      forall i | 0 <= i < |name| {
        strs[strsSize + i] := name[i];
      }
      strs[strsSize + |name|] := NUL;
    }

    /** `ksyms__add_symbol`; sizes stay within capacities by `Valid`. */
    method AddSymbol(name: string, addr: u64)
      requires Valid() && NoNul(name)
      modifies this, syms, strs
      ensures Valid() && names == old(names) + [Named(name, addr)]
      ensures syms == old(syms) || fresh(syms)
      ensures strs == old(strs) || fresh(strs)
      ensures strs.Length == if old(strsSize) + |name| + 1 > old(strs.Length)
                             then GrownStrs(old(strs.Length), old(strsSize) + |name| + 1) else old(strs.Length)
      ensures syms.Length
           == if old(symsSize) + 1 > old(syms.Length) then GrownSyms(old(syms.Length)) else old(syms.Length)
    {
      hide GrownStrs, GrownSyms, Tiles, NoNul;
      var nameLen := |name| + 1;
      ghost var arena, table := strs[..strsSize], syms[..symsSize];
      if strsSize + nameLen > strs.Length {
        GrowStrs(strsSize + nameLen);
      }
      if symsSize + 1 > syms.Length {
        GrowSyms();
      }
      syms[symsSize] := Ksym(strsSize, addr);
      assert syms[..symsSize + 1] == table + [Ksym(strsSize, addr)];
      CopyName(name);
      TilesSnoc(table, arena, names, name, addr);
      strsSize := strsSize + nameLen;
      symsSize := symsSize + 1;
      names := names + [Named(name, addr)];
    }
  }

  // ---------------------------------------------------------------------
  // Looking up an address

  ghost predicate SortedAddrs(syms: seq<Ksym>) {
    forall i, j :: 0 <= i < j < |syms| ==> syms[i].addr <= syms[j].addr
  }

  /** `ksyms__map_addr`: the last symbol at or below the address, none iff there is
      none. */
  method MapAddr(syms: seq<Ksym>, addr: u64) returns (r: Option<nat>)
    requires SortedAddrs(syms)
    ensures r.Some? ==> r.value < |syms| && syms[r.value].addr <= addr
    ensures r.Some? ==> forall j :: r.value < j < |syms| ==> syms[j].addr > addr
    ensures r.None? <==> forall j :: 0 <= j < |syms| ==> syms[j].addr > addr
  {
    var start, end := 0, |syms| - 1;
    while start < end
      invariant 0 <= start && end < |syms| && (|syms| > 0 ==> start <= end)
      invariant |syms| == 0 ==> end == -1 && start == 0
      invariant start > 0 ==> syms[start].addr <= addr
      invariant forall j :: end < j < |syms| ==> syms[j].addr > addr
      decreases end - start
    {
      var mid := start + (end - start + 1) / 2;
      if syms[mid].addr <= addr {
        start := mid;
      } else {
        end := mid - 1;
      }
    }
    if start == end && syms[start].addr <= addr {
      return Some(start);
    }
    return None;
  }

  // ---------------------------------------------------------------------
  // Looking up a symbol of an object

  datatype Sym = Sym(name: string, start: u64, size: u64, offset: u64)
  {
    /** The end of the symbol as the code computes it. */
    function End(): u64 {
      Wrap(start + size)
    }
  }

  ghost predicate SortedStarts(syms: seq<Sym>) {
    forall i, j :: 0 <= i < j < |syms| ==> syms[i].start <= syms[j].start
  }

  ghost predicate NoneWraps(syms: seq<Sym>) {
    forall i :: 0 <= i < |syms| ==> syms[i].start + syms[i].size <= U64_MAX
  }

  /** Symbol `i` contains the offset. */
  predicate Contains(s: Sym, offset: u64) {
    s.start <= offset < s.End()
  }

  /** Symbol `k` is the last that starts at or below the offset. */
  ghost predicate IsLastStart(syms: seq<Sym>, offset: u64, k: nat) {
    && k < |syms|
    && syms[k].start <= offset
    && (forall j :: k < j < |syms| ==> syms[j].start > offset)
  }

  /** The binary search: `start` meets `end` unless the table is empty. */
  method SearchStart(syms: array<Sym>, offset: u64) returns (start: int, end: int)
    requires SortedStarts(syms[..])
    ensures if syms.Length == 0 then start == 0 && end == -1 else 0 <= start == end < syms.Length
    ensures start > 0 ==> syms[start].start <= offset
    ensures forall j :: end < j < syms.Length ==> syms[j].start > offset
  {
    start, end := 0, syms.Length - 1;
    while start < end
      invariant 0 <= start && end < syms.Length
      invariant if syms.Length == 0 then start == 0 && end == -1 else start <= end
      invariant start > 0 ==> syms[start].start <= offset
      invariant forall j :: end < j < syms.Length ==> syms[j].start > offset
      decreases end - start
    {
      var mid := start + (end - start + 1) / 2;
      if syms[mid].start <= offset {
        start := mid;
      } else {
        assert forall j :: mid < j < syms.Length ==> syms[..][mid].start <= syms[..][j].start;
        end := mid - 1;
      }
    }
  }

  /** `dso__find_sym` on a loaded table: the last symbol that starts at or below the
      offset, if it contains it; its `offset` field is set. */
  method FindSym(syms: array<Sym>, offset: u64) returns (r: Option<nat>)
    requires SortedStarts(syms[..])
    modifies syms
    ensures r.Some? ==> IsLastStart(old(syms[..]), offset, r.value) && Contains(old(syms[..])[r.value], offset)
    ensures r.Some? ==>
              syms[..] == old(syms[..])[r.value := old(syms[r.value]).(offset := offset - old(syms[r.value]).start)]
    ensures r.None? ==> syms[..] == old(syms[..])
    ensures r.None? ==> forall k: nat :: IsLastStart(syms[..], offset, k) ==> !Contains(syms[..][k], offset)
  {
    var start, end := SearchStart(syms, offset);
    ghost var table := syms[..];
    if start == end && syms[start].start <= offset && offset < Wrap(syms[start].start + syms[start].size) {
      assert IsLastStart(table, offset, start);
      syms[start] := syms[start].(offset := offset - syms[start].start);
      return Some(start);
    }
    return None;
  }

  /** The search finds a symbol for the offset. */
  ghost predicate Finds(syms: seq<Sym>, offset: u64) {
    exists k: nat :: IsLastStart(syms, offset, k) && Contains(syms[k], offset)
  }

  ghost predicate Covered(syms: seq<Sym>, offset: u64) {
    exists i :: 0 <= i < |syms| && Contains(syms[i], offset)
  }

  /** Where symbol `k` stops being the last to have started. */
  function NextStart(syms: seq<Sym>, k: nat): nat
    requires k < |syms|
  {
    if k + 1 < |syms| then syms[k + 1].start else U64_MAX + 1
  }

  /** No symbol reaches past the end of a later one into the gap before the next. */
  ghost predicate NoneShadowed(syms: seq<Sym>) {
    forall i, k :: 0 <= i < k < |syms| ==> syms[i].End() <= syms[k].End() || NextStart(syms, k) <= syms[k].End()
  }

  /** On a sorted table without wrapping ranges, every covered offset is found
      exactly when no symbol is shadowed by a shorter one that starts inside it. */
  lemma FindsAllCoveredIff(syms: seq<Sym>)
    requires SortedStarts(syms) && NoneWraps(syms)
    ensures (forall offset: u64 :: Covered(syms, offset) ==> Finds(syms, offset)) <==> NoneShadowed(syms)
  {
    if NoneShadowed(syms) {
      forall offset: u64 | Covered(syms, offset) ensures Finds(syms, offset) {
        var i :| 0 <= i < |syms| && Contains(syms[i], offset);
        var k := LastStart(syms, offset, i);
        assert IsLastStart(syms, offset, k) && Contains(syms[k], offset);
      }
    } else {
      var i, k :| 0 <= i < k < |syms| && !(syms[i].End() <= syms[k].End() || NextStart(syms, k) <= syms[k].End());
      ShadowedIsLost(syms, i, k);
    }
  }

  /** The last symbol that starts at or below the offset, given one that does. */
  lemma {:induction false} LastStart(syms: seq<Sym>, offset: u64, i: nat) returns (k: nat)
    requires SortedStarts(syms) && i < |syms| && syms[i].start <= offset
    ensures IsLastStart(syms, offset, k) && i <= k
    decreases |syms| - i
  {
    if i + 1 < |syms| && syms[i + 1].start <= offset {
      k := LastStart(syms, offset, i + 1);
    } else {
      k := i;
    }
  }

  lemma ShadowedIsLost(syms: seq<Sym>, i: nat, k: nat)
    requires SortedStarts(syms) && NoneWraps(syms) && i < k < |syms|
    requires syms[k].End() < syms[i].End() && syms[k].End() < NextStart(syms, k)
    ensures Covered(syms, syms[k].End()) && !Finds(syms, syms[k].End())
  {
    var offset := syms[k].End();
    assert syms[i].start <= syms[k].start <= offset;
    assert Contains(syms[i], offset);
    assert IsLastStart(syms, offset, k);
    assert !Contains(syms[k], offset);
  }

  /** A symbol of size 10 with one of size 1 inside it: offset 5 lies in the first and
      is found in neither. */
  lemma NestedSymbolHidesOffset()
    ensures var syms := [Sym("outer", 0, 10, 0), Sym("inner", 2, 1, 0)];
            && SortedStarts(syms) && NoneWraps(syms)
            && Covered(syms, 5) && !Finds(syms, 5) && !NoneShadowed(syms)
  {
    var syms := [Sym("outer", 0, 10, 0), Sym("inner", 2, 1, 0)];
    assert Contains(syms[0], 5);
    assert syms[1].start <= 5;
    assert syms[1].End() < syms[0].End();
  }

  /** Ranges that end before the next one begins are never shadowed, so the search
      finds the containing symbol whenever one exists, and it is the only one. */
  lemma DisjointTablesAreComplete(syms: seq<Sym>, offset: u64, i: nat)
    requires SortedStarts(syms) && NoneWraps(syms)
    requires forall j, k :: 0 <= j < k < |syms| ==> syms[j].start + syms[j].size <= syms[k].start
    requires i < |syms| && Contains(syms[i], offset)
    ensures Finds(syms, offset) && IsLastStart(syms, offset, i)
    ensures forall j :: 0 <= j < |syms| && Contains(syms[j], offset) ==> j == i
  {
    assert forall j :: i < j < |syms| ==> syms[i].End() <= syms[j].start;
    assert IsLastStart(syms, offset, i);
  }
}
