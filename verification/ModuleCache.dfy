// The sixteen-slot module cache of src/dwarf/module_cache.c.
//
// Opening and indexing a file is outside the model: each acquire is given what
// loading its path would yield at that moment. A handle is the index of its slot.
module ModuleCache {
  import opened Machine
  import opened CfiSection
  import opened CfiTables

  const CAPACITY: nat := 16

  /** The longest path an entry can store. */
  const MAX_STORED: nat := 511

  /** The tables of a loaded module. Evaluation indexes 32 registers by the return
      register and follows the pointers of FDEs, so a usable module names one of those
      registers in each CIE and has each pointer lead into its table. */
  ghost predicate IsModule(t: Tables) {
    && Linked(t)
    && (forall i :: 0 <= i < |t.cies| ==> t.cies[i].returnReg < 32)
    && (forall i :: 0 <= i < |t.fdes| ==> PointsIntoTable(t, t.fdes[i]))
  }

  type Module = t: Tables | IsModule(t) witness Tables([], [])

  datatype SlotState = Unused | Active | Warm

  datatype Slot = Slot(path: string, content: Module, refcnt: nat, state: SlotState, warmSeq: nat)

  const EMPTY_SLOT: Slot := Slot("", EMPTY, 0, Unused, 0)

  type Slots = s: seq<Slot> | |s| == 16 witness seq(16, _ => EMPTY_SLOT)

  datatype Cache = Cache(slots: Slots, clock: nat)

  function FreshSlots(): Slots {
    seq(16, _ => EMPTY_SLOT)
  }

  function Fresh(): Cache {
    Cache(FreshSlots(), 0)
  }

  /** The copy of a path that an entry keeps. */
  function Stored(path: string): string {
    if |path| > MAX_STORED then path[..MAX_STORED] else path
  }

  /** The path a frame or a cache entry keeps: all of it, or its first 511 bytes. */
  ghost predicate IsCut(path: string, kept: string) {
    if |path| <= 511 then kept == path else |kept| == 511 && kept <= path
  }

  lemma StoredIsCut(path: string)
    ensures IsCut(path, Stored(path))
  {
  }

  /** The slot in use that holds `path`, compared with the whole path. */
  predicate Holds(slot: Slot, path: string) {
    slot.state != Unused && slot.path == path
  }

  function Find(slots: seq<Slot>, path: string): (r: Option<nat>)
    ensures r.Some? ==> r.value < |slots| && Holds(slots[r.value], path)
    ensures r.Some? ==> forall i :: 0 <= i < r.value ==> !Holds(slots[i], path)
    ensures r.None? ==> forall i :: 0 <= i < |slots| ==> !Holds(slots[i], path)
  {
    if slots == [] then None
    else if Holds(slots[0], path) then Some(0)
    else
      var r := Find(slots[1..], path);
      assert forall i :: 1 <= i < |slots| ==> slots[i] == slots[1..][i - 1];
      if r.None? then None else Some(r.value + 1)
  }

  /** Slot `i` may be given to a new module: the first unused slot, or when there
      is none the first among the oldest warm slots. */
  ghost predicate Eligible(slots: seq<Slot>, i: nat) {
    && i < |slots|
    && (slots[i].state == Unused ==> forall j :: 0 <= j < i ==> slots[j].state != Unused)
    && (slots[i].state != Unused ==>
          slots[i].state == Warm && forall j :: 0 <= j < |slots| ==> slots[j].state != Unused)
    && (slots[i].state == Warm ==> forall j :: 0 <= j < |slots| && slots[j].state == Warm ==>
          slots[i].warmSeq < slots[j].warmSeq || (slots[i].warmSeq == slots[j].warmSeq && i <= j))
  }

  /** The choice of slot, scanning from `i` with `victim` the oldest warm so far. */
  function Choose(slots: seq<Slot>, i: nat, victim: Option<nat>): (r: Option<nat>)
    requires i <= |slots| && (victim.Some? ==> victim.value < |slots|)
    ensures r.Some? ==> r.value < |slots|
    decreases |slots| - i
  {
    if i == |slots| then victim
    else if slots[i].state == Unused then Some(i)
    else if slots[i].state == Warm && (victim.None? || slots[i].warmSeq < slots[victim.value].warmSeq) then
      Choose(slots, i + 1, Some(i))
    else Choose(slots, i + 1, victim)
  }

  lemma {:induction false} ChooseIsEligible(slots: seq<Slot>, i: nat, victim: Option<nat>)
    requires i <= |slots|
    requires forall j :: 0 <= j < i ==> slots[j].state != Unused
    requires match victim
             case None => forall j :: 0 <= j < i ==> slots[j].state != Warm
             case Some(v) =>
               v < i && slots[v].state == Warm
               && forall j :: 0 <= j < i && slots[j].state == Warm ==>
                    slots[v].warmSeq < slots[j].warmSeq || (slots[v].warmSeq == slots[j].warmSeq && v <= j)
    ensures match Choose(slots, i, victim)
            case Some(v) => Eligible(slots, v)
            case None => forall j :: 0 <= j < |slots| ==> slots[j].state == Active
    decreases |slots| - i
  {
    if i < |slots| && slots[i].state != Unused {
      if slots[i].state == Warm && (victim.None? || slots[i].warmSeq < slots[victim.value].warmSeq) {
        ChooseIsEligible(slots, i + 1, Some(i));
      } else {
        ChooseIsEligible(slots, i + 1, victim);
      }
    }
  }

  /** The cache after an acquire, and the handle or the failure it returns. */
  datatype Acquired = Acquired(cache: Cache, handle: Result<nat>)

  function Hit(slot: Slot): Slot {
    if slot.state == Warm then slot.(refcnt := 1, state := Active, warmSeq := 0)
    else slot.(refcnt := slot.refcnt + 1)
  }

  function Acquire(c: Cache, path: string, load: Result<Module>): Acquired {
    var hit := Find(c.slots, path);
    if hit.Some? then
      Acquired(c.(slots := c.slots[hit.value := Hit(c.slots[hit.value])]), Pass(hit.value))
    else
      var chosen := Choose(c.slots, 0, None);
      if chosen.None? then Acquired(c, Fail(CacheFull))
      else
        var i := chosen.value;
        match load
        case Fail(st) =>
          Acquired(if c.slots[i].state == Warm then c.(slots := c.slots[i := EMPTY_SLOT]) else c, Fail(st))
        case Pass(m) =>
          Acquired(c.(slots := c.slots[i := Slot(Stored(path), m, 1, Active, 0)]), Pass(i))
  }

  datatype Released = Released(cache: Cache, status: Status)

  function Release(c: Cache, handle: nat): Released {
    if handle >= CAPACITY || c.slots[handle].state == Unused || c.slots[handle].refcnt == 0 then
      Released(c, InvalidArg)
    else
      var slot := c.slots[handle];
      if slot.refcnt == 1 then
        Released(Cache(c.slots[handle := slot.(refcnt := 0, state := Warm, warmSeq := c.clock + 1)], c.clock + 1), Ok)
      else
        Released(c.(slots := c.slots[handle := slot.(refcnt := slot.refcnt - 1)]), Ok)
  }

  // ---------------------------------------------------------------------
  // The invariant

  ghost predicate SlotInv(slot: Slot, clock: nat) {
    match slot.state
    case Unused => slot == EMPTY_SLOT
    case Active => slot.refcnt > 0 && slot.warmSeq == 0
    case Warm => slot.refcnt == 0 && 1 <= slot.warmSeq <= clock
  }

  ghost predicate Distinct(slots: seq<Slot>) {
    forall i, j :: 0 <= i < j < |slots| && slots[i].state != Unused && slots[j].state != Unused ==>
      slots[i].path != slots[j].path
  }

  ghost predicate WarmOrdered(slots: seq<Slot>) {
    forall i, j :: 0 <= i < j < |slots| && slots[i].state == Warm && slots[j].state == Warm ==>
      slots[i].warmSeq != slots[j].warmSeq
  }

  /** Active exactly when referenced, warm sequence numbers distinct and within
      1..clock, unused slots clear. */
  ghost predicate Sound(c: Cache) {
    && (forall i :: 0 <= i < CAPACITY ==> SlotInv(c.slots[i], c.clock))
    && WarmOrdered(c.slots)
  }

  /** The cache is sound and no two slots in use have the same path. */
  ghost predicate Inv(c: Cache) {
    Sound(c) && Distinct(c.slots)
  }

  /** Acquire keeps the cache sound, whatever the path. */
  lemma AcquireKeepsSound(c: Cache, path: string, load: Result<Module>)
    requires Sound(c)
    ensures Sound(Acquire(c, path, load).cache)
  {
    var hit := Find(c.slots, path);
    if hit.None? {
      ChooseIsEligible(c.slots, 0, None);
    }
  }

  /** The path is loaded into a slot although another one already shows the path it
      will be stored as. */
  ghost predicate StoredTwice(c: Cache, path: string, load: Result<Module>) {
    var chosen := Choose(c.slots, 0, None);
    && load.Pass?
    && Find(c.slots, path).None?
    && chosen.Some?
    && exists j :: 0 <= j < CAPACITY && j != chosen.value && Holds(c.slots[j], Stored(path))
  }

  /** Acquire keeps the whole invariant exactly when it does not store a path twice. */
  lemma AcquireKeepsInvIff(c: Cache, path: string, load: Result<Module>)
    requires Inv(c)
    ensures Inv(Acquire(c, path, load).cache) <==> !StoredTwice(c, path, load)
  {
    hide Stored;
    AcquireKeepsSound(c, path, load);
    var chosen := Choose(c.slots, 0, None);
    if Find(c.slots, path).None? && chosen.Some? && load.Pass? {
      var i := chosen.value;
      var after := Acquire(c, path, load).cache;
      assert after.slots[i].path == Stored(path) && after.slots[i].state == Active;
      assert forall j :: 0 <= j < CAPACITY && j != i ==> after.slots[j] == c.slots[j];
    }
  }

  /** A path that fits its entry is never stored twice. */
  lemma AcquireKeepsInv(c: Cache, path: string, load: Result<Module>)
    requires Inv(c) && |path| <= MAX_STORED
    ensures Inv(Acquire(c, path, load).cache)
  {
    AcquireKeepsInvIff(c, path, load);
  }

  /** A release succeeds exactly for a slot in use and referenced, and otherwise changes
      nothing. */
  lemma ReleaseOutcome(c: Cache, handle: nat)
    ensures var r := Release(c, handle);
            if handle < 16 && c.slots[handle].state != Unused && c.slots[handle].refcnt > 0 then
              r.status == Ok && r.cache.slots[handle].refcnt == c.slots[handle].refcnt - 1
            else r == Released(c, InvalidArg)
  {
  }

  lemma ReleaseKeepsSound(c: Cache, handle: nat)
    requires Sound(c)
    ensures Sound(Release(c, handle).cache)
  {
  }

  lemma ReleaseKeepsInv(c: Cache, handle: nat)
    requires Inv(c)
    ensures Inv(Release(c, handle).cache)
  {
  }

  lemma FindAfterUpdate(slots: seq<Slot>, i: nat, slot: Slot, path: string)
    requires Find(slots, path).None? && i < |slots| && slot.state != Unused
    ensures Find(slots[i := slot], path).Some? <==> slot.path == path
  {
    var after := slots[i := slot];
    if slot.path == path {
      assert Holds(after[i], path);
    } else {
      assert forall j :: 0 <= j < |after| ==> !Holds(after[j], path);
    }
  }

  lemma StoredWholeIffItFits(path: string)
    ensures Stored(path) == path <==> |path| <= MAX_STORED
  {
  }

  /** The path just loaded is found again exactly when it fits its entry; a longer
      one is stored cut and compared whole. */
  lemma FoundAgainIffItFits(c: Cache, path: string, m: Module)
    requires Acquire(c, path, Pass(m)).handle.Pass? && Find(c.slots, path).None?
    ensures Find(Acquire(c, path, Pass(m)).cache.slots, path).Some? <==> |path| <= 511
  {
    hide Choose, Stored;
    var i := Acquire(c, path, Pass(m)).handle.value;
    FindAfterUpdate(c.slots, i, Slot(Stored(path), m, 1, Active, 0), path);
    StoredWholeIffItFits(path);
  }

  /** CACHE_FULL means the path is absent and every slot is referenced. */
  lemma FullIffAllActive(c: Cache, path: string, load: Result<Module>)
    requires load.Fail? ==> load.status != CacheFull
    ensures Acquire(c, path, load).handle == Fail(CacheFull)
       <==> Find(c.slots, path).None? && forall i :: 0 <= i < CAPACITY ==> c.slots[i].state == Active
  {
    ChooseIsEligible(c.slots, 0, None);
  }

  /** A failed acquire changes no referenced slot and no warm slot but the oldest,
      which it gives up only when no slot is unused. */
  lemma FailedAcquireLosesOldest(c: Cache, path: string, load: Result<Module>, i: nat)
    requires Sound(c) && Acquire(c, path, load).handle.Fail?
    requires i < CAPACITY && Acquire(c, path, load).cache.slots[i] != c.slots[i]
    ensures c.slots[i].state == Warm && Acquire(c, path, load).cache.slots[i] == EMPTY_SLOT
    ensures forall j :: 0 <= j < CAPACITY && j != i ==> Acquire(c, path, load).cache.slots[j] == c.slots[j]
    ensures forall j :: 0 <= j < CAPACITY ==> c.slots[j].state != Unused
    ensures forall j :: 0 <= j < CAPACITY && c.slots[j].state == Warm ==> c.slots[i].warmSeq <= c.slots[j].warmSeq
  {
    ChooseIsEligible(c.slots, 0, None);
  }

  // ---------------------------------------------------------------------
  // The cache object

  class SlotTable {
    const entries: array<Slot>
    var warmClock: nat

    ghost predicate Valid()
      reads this
    {
      entries.Length == 16
    }

    ghost function View(): Cache
      reads this, entries
      requires Valid()
    {
      Cache(entries[..], warmClock)
    }

    /** `dwunw_module_cache_init`. */
    constructor ()
      ensures Valid() && fresh(entries) && View() == Fresh()
    {
      entries := new Slot[16](_ => EMPTY_SLOT);
      warmClock := 0;
      new;
      assert entries[..] == FreshSlots();
    }

    /** `dwunw_module_cache_find`. */
    method FindEntry(path: string) returns (r: Option<nat>)
      requires Valid()
      ensures r == Find(View().slots, path)
    {
      for i := 0 to CAPACITY
        invariant forall j :: 0 <= j < i ==> !Holds(entries[j], path)
      {
        if entries[i].state != Unused && entries[i].path == path {
          return Some(i);
        }
      }
      return None;
    }

    /** `dwunw_module_cache_alloc`: clears the victim when it had to evict. */
    method Alloc() returns (r: Option<nat>)
      requires Valid()
      modifies entries
      ensures r == Choose(old(View()).slots, 0, None)
      ensures View() == if r.Some? && old(View()).slots[r.value].state == Warm
                        then old(View()).(slots := old(View()).slots[r.value := EMPTY_SLOT])
                        else old(View())
    {
      var victim: Option<nat> := None;
      ghost var slots: Slots := entries[..];
      for i := 0 to CAPACITY
        invariant victim.Some? ==> victim.value < CAPACITY && entries[victim.value].state == Warm
        invariant entries[..] == slots
        invariant Choose(slots, 0, None) == Choose(slots, i, victim)
      {
        if entries[i].state == Unused {
          return Some(i);
        }
        if entries[i].state == Warm {
          if victim.None? || entries[i].warmSeq < entries[victim.value].warmSeq {
            victim := Some(i);
          }
        }
      }
      if victim.None? {
        return None;
      }
      entries[victim.value] := EMPTY_SLOT;
      return victim;
    }

    /** `dwunw_module_cache_acquire`. */
    method AcquireModule(path: string, open: string -> Result<Module>) returns (handle: Result<nat>)
      requires Valid()
      modifies entries
      ensures Acquired(View(), handle) == Acquire(old(View()), path, open(path))
    {
      var entry := FindEntry(path);
      if entry.Some? {
        var i := entry.value;
        if entries[i].state == Warm {
          entries[i] := entries[i].(refcnt := 1, state := Active, warmSeq := 0);
        } else {
          entries[i] := entries[i].(refcnt := entries[i].refcnt + 1);
        }
        return Pass(i);
      }
      entry := Alloc();
      if entry.None? {
        return Fail(CacheFull);
      }
      var loaded := open(path);
      if loaded.Fail? {
        return Fail(loaded.status);
      }
      entries[entry.value] := Slot(Stored(path), loaded.value, 1, Active, 0);
      return Pass(entry.value);
    }

    /** `dwunw_module_cache_release`. */
    method ReleaseModule(handle: nat) returns (st: Status)
      requires Valid()
      modifies this, entries
      ensures Valid()
      ensures Released(View(), st) == Release(old(View()), handle)
    {
      if handle >= CAPACITY || entries[handle].state == Unused {
        return InvalidArg;
      }
      if entries[handle].refcnt == 0 {
        return InvalidArg;
      }
      entries[handle] := entries[handle].(refcnt := entries[handle].refcnt - 1);
      if entries[handle].refcnt == 0 {
        warmClock := warmClock + 1;
        entries[handle] := entries[handle].(state := Warm, warmSeq := warmClock);
      }
      return Ok;
    }

    /** `dwunw_module_cache_flush`: every entry reset, referenced or not. */
    method Flush()
      requires Valid()
      modifies this, entries
      ensures Valid()
      ensures warmClock == 0
      ensures forall i :: 0 <= i < CAPACITY ==>
                entries[i] == if old(entries[i]).state == Unused then old(entries[i]) else EMPTY_SLOT
      ensures old(Inv(View())) ==> View() == Fresh()
    {
      for i := 0 to CAPACITY
        invariant forall j :: 0 <= j < i ==>
                    entries[j] == if old(entries[j]).state == Unused then old(entries[j]) else EMPTY_SLOT
        invariant forall j :: i <= j < CAPACITY ==> entries[j] == old(entries[j])
      {
        if entries[i].state != Unused {
          entries[i] := EMPTY_SLOT;
        }
      }
      warmClock := 0;
      ghost var before := old(View());
      assert forall i :: 0 <= i < CAPACITY ==> before.slots[i] == old(entries[i]);
      if old(Inv(View())) {
        assert forall i :: 0 <= i < CAPACITY ==> SlotInv(before.slots[i], before.clock);
        assert entries[..] == FreshSlots();
      }
    }
  }
}
