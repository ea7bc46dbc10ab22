// Whole runs of the module cache: what its counters and sequence numbers say
// about the history of acquires and releases that led to them.
module CacheHistory {
  import opened Machine
  import opened ModuleCache
  import opened CfiTables

  /** A call, with what loading the path would yield at that moment. */
  datatype Event = AcquireOf(path: string, load: Result<Module>) | ReleaseOf(handle: nat)

  /** What a call did. */
  datatype Effect =
    | HitOn(slot: nat)
    | LoadedInto(slot: nat)
    | Refused
    | Dropped(slot: nat)
    | WentIdle(slot: nat)

  function Step(c: Cache, e: Event): Cache {
    match e
    case AcquireOf(path, load) => Acquire(c, path, load).cache
    case ReleaseOf(handle) => Release(c, handle).cache
  }

  function EffectOf(c: Cache, e: Event): Effect {
    match e
    case AcquireOf(path, load) =>
      var a := Acquire(c, path, load);
      if a.handle.Fail? then Refused
      else if Find(c.slots, path).Some? then HitOn(a.handle.value)
      else LoadedInto(a.handle.value)
    case ReleaseOf(handle) =>
      if Release(c, handle).status != Ok then Refused
      else if c.slots[handle].refcnt == 1 then WentIdle(handle)
      else Dropped(handle)
  }

  /** The paths of every event fit their entries. */
  ghost predicate Fits(es: seq<Event>) {
    forall i :: 0 <= i < |es| && es[i].AcquireOf? ==> |es[i].path| <= MAX_STORED
  }

  /** The cache after a run from a fresh one. */
  function After(es: seq<Event>): Cache {
    if es == [] then Fresh() else Step(After(es[..|es| - 1]), es[|es| - 1])
  }

  /** The effects of a run, one for each event. */
  function Log(es: seq<Event>): (log: seq<Effect>)
    ensures |log| == |es|
  {
    if es == [] then [] else Log(es[..|es| - 1]) + [EffectOf(After(es[..|es| - 1]), es[|es| - 1])]
  }

  /** Every run leaves a sound cache, however long its paths. */
  lemma {:induction false} AfterIsSound(es: seq<Event>)
    ensures Sound(After(es))
  {
    if es != [] {
      var before := es[..|es| - 1];
      AfterIsSound(before);
      match es[|es| - 1]
      case AcquireOf(path, load) => AcquireKeepsSound(After(before), path, load);
      case ReleaseOf(handle) => ReleaseKeepsSound(After(before), handle);
    }
  }

  /** When all paths fit, resident paths stay distinct too. */
  lemma {:induction false} AfterKeepsInv(es: seq<Event>)
    requires Fits(es)
    ensures Inv(After(es))
  {
    if es != [] {
      var before := es[..|es| - 1];
      AfterKeepsInv(before);
      match es[|es| - 1]
      case AcquireOf(path, load) => AcquireKeepsInv(After(before), path, load);
      case ReleaseOf(handle) => ReleaseKeepsInv(After(before), handle);
    }
  }

  /** Every path that a run acquires is one of `paths`. */
  ghost predicate Acquires(es: seq<Event>, paths: iset<string>) {
    forall k :: 0 <= k < |es| && es[k].AcquireOf? ==> es[k].path in paths
  }

  /** Resident paths stay distinct over every run on given paths exactly when all of
      them fit. */
  lemma RunsKeepInvIff(paths: iset<string>)
    ensures (forall es :: Acquires(es, paths) ==> Inv(After(es))) <==> forall p :: p in paths ==> |p| <= 511
  {
    hide After, Inv;
    if forall p :: p in paths ==> |p| <= MAX_STORED {
      forall es | Acquires(es, paths) ensures Inv(After(es)) {
        AfterKeepsInv(es);
      }
    } else {
      var p :| p in paths && |p| > MAX_STORED;
      LongPathIsStoredTwice(p, EMPTY);
      assert Acquires(TwoAcquires(p, EMPTY), paths);
    }
  }

  /** A path acquired twice. */
  function TwoAcquires(path: string, m: Module): seq<Event> {
    [AcquireOf(path, Pass(m)), AcquireOf(path, Pass(m))]
  }

  /** Two acquires of an over-long path leave two slots that show the same path. */
  lemma LongPathIsStoredTwice(path: string, m: Module)
    requires |path| > MAX_STORED
    ensures !Distinct(After(TwoAcquires(path, m)).slots) && !Inv(After(TwoAcquires(path, m)))
  {
    hide Stored, Choose, Acquire;
    var e, es := AcquireOf(path, Pass(m)), TwoAcquires(path, m);
    assert es[..1] == [e] && [e][..0] == [];
    var i := FirstLoad(path, m);
    var c := Acquire(Fresh(), path, Pass(m)).cache;
    assert After([e]) == Step(After([e][..0]), e) == c;
    StoredAgain(c, path, m, i);
    assert After(es) == Step(After(es[..1]), e);
  }

  /** The first load goes into some slot, and leaves the others unused. */
  lemma FirstLoad(path: string, m: Module) returns (i: nat)
    ensures var a := Acquire(Fresh(), path, Pass(m));
            && i < CAPACITY && a.handle == Pass(i)
            && Find(Fresh().slots, path).None?
            && a.cache.slots[i] == Slot(Stored(path), m, 1, Active, 0)
            && forall j :: 0 <= j < CAPACITY && j != i ==> a.cache.slots[j] == EMPTY_SLOT
  {
    hide Stored, Choose;
    ChooseIsEligible(Fresh().slots, 0, None);
    assert Fresh().slots[0].state == Unused;
    i := Choose(Fresh().slots, 0, None).value;
  }

  lemma StoredAgain(c: Cache, path: string, m: Module, i: nat)
    requires |path| > MAX_STORED && i < CAPACITY && c == Acquire(Fresh(), path, Pass(m)).cache
    requires c.slots[i] == Slot(Stored(path), m, 1, Active, 0) && Find(Fresh().slots, path).None?
    requires forall j :: 0 <= j < CAPACITY && j != i ==> c.slots[j] == EMPTY_SLOT
    requires Acquire(Fresh(), path, Pass(m)).handle == Pass(i)
    ensures !Distinct(Acquire(c, path, Pass(m)).cache.slots)
  {
    hide Stored, Choose, Acquire;
    FoundAgainIffItFits(Fresh(), path, m);
    ChooseIsEligible(c.slots, 0, None);
    assert c.slots[if i == 0 then 1 else 0].state == Unused;
    assert Holds(c.slots[i], Stored(path));
    assert Sound(c) && Distinct(c.slots);
    AcquireKeepsSound(c, path, Pass(m));
    AcquireKeepsInvIff(c, path, Pass(m));
  }

  lemma FreshIsUnused(i: nat)
    requires i < CAPACITY
    ensures After([]).slots[i].state == Unused
  {
  }

  lemma RunSnoc(es: seq<Event>)
    requires es != []
    ensures var c, e := After(es[..|es| - 1]), es[|es| - 1];
            After(es) == Step(c, e) && Log(es) == Log(es[..|es| - 1]) + [EffectOf(c, e)]
  {
  }

  // ---------------------------------------------------------------------
  // Reference counts

  function Change(effect: Effect, i: nat): int {
    match effect
    case HitOn(s) => if s == i then 1 else 0
    case LoadedInto(s) => if s == i then 1 else 0
    case Dropped(s) => if s == i then -1 else 0
    case WentIdle(s) => if s == i then -1 else 0
    case Refused => 0
  }

  /** Successful acquires of slot `i` minus successful releases in a log. */
  function Balance(log: seq<Effect>, i: nat): int {
    if log == [] then 0 else Balance(log[..|log| - 1], i) + Change(log[|log| - 1], i)
  }

  /** Index of the last load into slot `i`, or |log| when there was none. */
  function LastLoad(log: seq<Effect>, i: nat): (k: nat)
    ensures k <= |log|
    ensures k < |log| ==> log[k] == LoadedInto(i)
    ensures forall j :: k < j < |log| ==> log[j] != LoadedInto(i)
    ensures k == |log| ==> forall j :: 0 <= j < |log| ==> log[j] != LoadedInto(i)
  {
    if log == [] then 0
    else if log[|log| - 1] == LoadedInto(i) then |log| - 1
    else
      var k := LastLoad(log[..|log| - 1], i);
      if k == |log| - 1 then |log| else k
  }

  /** How one step changes slot `i`. */
  lemma StepOnSlot(c: Cache, e: Event, i: nat)
    requires i < CAPACITY && Sound(c)
    ensures var s, t := c.slots[i], Step(c, e).slots[i];
            match EffectOf(c, e)
            case HitOn(j) => if j == i then s.state != Unused && t == Hit(s) else t == s
            case LoadedInto(j) => if j == i then s.state != Active && t.refcnt == 1 && t.state == Active else t == s
            case Dropped(j) => if j == i then s.refcnt > 1 && t == s.(refcnt := s.refcnt - 1) else t == s
            case WentIdle(j) =>
              if j == i then s.refcnt == 1 && t == s.(refcnt := 0, state := Warm, warmSeq := c.clock + 1) else t == s
            case Refused => t == s || (s.state == Warm && t == EMPTY_SLOT)
    ensures Step(c, e).clock == if EffectOf(c, e).WentIdle? then c.clock + 1 else c.clock
  {
    ChooseIsEligible(c.slots, 0, None);
  }

  /** A resident entry's reference count is the number of successful acquires of
      its handle minus the number of successful releases since it was loaded. */
  lemma {:induction false} RefcountIsBalance(es: seq<Event>, i: nat)
    requires i < CAPACITY && After(es).slots[i].state != Unused
    ensures LastLoad(Log(es), i) < |es|
    ensures After(es).slots[i].refcnt == Balance(Log(es)[LastLoad(Log(es), i)..], i)
  {
    hide After, Log, Step, EffectOf, Balance, LastLoad;
    if es == [] {
      FreshIsUnused(i);
    }
    var before, e := es[..|es| - 1], es[|es| - 1];
    var c := After(before);
    AfterIsSound(before);
    StepOnSlot(c, e, i);
    RunSnoc(es);
    assert SlotInv(c.slots[i], c.clock);
    var log, x := Log(before), EffectOf(c, e);
    LastLoadSnoc(log, x, i);
    if x == LoadedInto(i) {
      assert (log + [x])[|log|..] == [] + [x];
      BalanceSnoc([], x, i);
    } else {
      RefcountIsBalance(before, i);
      var k := LastLoad(log, i);
      assert (log + [x])[k..] == log[k..] + [x];
      BalanceSnoc(log[k..], x, i);
    }
  }

  lemma BalanceSnoc(log: seq<Effect>, x: Effect, i: nat)
    ensures Balance(log + [x], i) == Balance(log, i) + Change(x, i)
    ensures Balance([], i) == 0
  {
    assert (log + [x])[..|log|] == log;
  }

  lemma LastLoadSnoc(log: seq<Effect>, x: Effect, i: nat)
    ensures var k := LastLoad(log, i);
            LastLoad(log + [x], i) == if x == LoadedInto(i) then |log| else if k == |log| then |log| + 1 else k
  {
    assert (log + [x])[..|log|] == log;
  }

  // ---------------------------------------------------------------------
  // Stability of handles

  /** While an entry is referenced, no operation on other paths or other handles
      touches it, and none at all changes what its handle denotes. */
  lemma ReferencedIsStable(c: Cache, e: Event, i: nat)
    requires Sound(c) && i < CAPACITY && c.slots[i].refcnt > 0
    ensures var s, t := c.slots[i], Step(c, e).slots[i];
            && t.path == s.path && t.content == s.content
            && (match e
                case AcquireOf(path, _) =>
                  if path == s.path && Distinct(c.slots) then t == s.(refcnt := s.refcnt + 1)
                  else t == s || (path == s.path && t == s.(refcnt := s.refcnt + 1))
                case ReleaseOf(handle) => handle != i ==> t == s)
  {
    StepOnSlot(c, e, i);
    assert c.slots[i].state == Active;
    if e.AcquireOf? && e.path == c.slots[i].path {
      assert Holds(c.slots[i], e.path);
    }
  }

  /** Running on from a cache. */
  function Continue(c: Cache, es: seq<Event>): Cache
    decreases |es|
  {
    if es == [] then c else Continue(Step(c, es[0]), es[1..])
  }

  /** Slot `i` stays referenced up to, not counting, the end of the run. */
  ghost predicate HeldThroughout(c: Cache, es: seq<Event>, i: nat)
    requires i < CAPACITY
    decreases |es|
  {
    es != [] ==> c.slots[i].refcnt > 0 && HeldThroughout(Step(c, es[0]), es[1..], i)
  }

  /** A handle keeps denoting the same module for as long as it is held. */
  lemma {:induction false} HandleIsStable(c: Cache, es: seq<Event>, i: nat)
    requires Sound(c) && i < CAPACITY && HeldThroughout(c, es, i)
    ensures Continue(c, es).slots[i].path == c.slots[i].path
    ensures Continue(c, es).slots[i].content == c.slots[i].content
    decreases |es|
  {
    if es != [] {
      ReferencedIsStable(c, es[0], i);
      match es[0] {
        case AcquireOf(path, load) => AcquireKeepsSound(c, path, load);
        case ReleaseOf(handle) => ReleaseKeepsSound(c, handle);
      }
      HandleIsStable(Step(c, es[0]), es[1..], i);
    }
  }

  /** Every load of the run saw the same files. */
  ghost predicate FilesFixed(es: seq<Event>, files: string -> Result<Module>) {
    forall k :: 0 <= k < |es| && es[k].AcquireOf? ==> es[k].load == files(es[k].path)
  }

  /** With unchanging files every resident entry is a fresh load of a path that the
      run acquired and that is stored as the entry's: the entry's own if all fit. */
  lemma {:induction false} ResidentIsFresh(es: seq<Event>, files: string -> Result<Module>, i: nat) returns (k: nat)
    requires FilesFixed(es, files) && i < CAPACITY && After(es).slots[i].state != Unused
    ensures k < |es| && es[k].AcquireOf? && Stored(es[k].path) == After(es).slots[i].path
    ensures files(es[k].path) == Pass(After(es).slots[i].content)
    ensures Fits(es) ==> files(After(es).slots[i].path) == Pass(After(es).slots[i].content)
  {
    var before, e := es[..|es| - 1], es[|es| - 1];
    var c := After(before);
    AfterIsSound(before);
    StepOnSlot(c, e, i);
    if EffectOf(c, e) != LoadedInto(i) {
      k := ResidentIsFresh(before, files, i);
    } else {
      k := |es| - 1;
    }
  }

  // ---------------------------------------------------------------------
  // Eviction order

  /** When slot `i` last went from one reference to none, or |log| if never. */
  function LastIdle(log: seq<Effect>, i: nat): (k: nat)
    ensures k <= |log|
    ensures k < |log| ==> log[k] == WentIdle(i)
    ensures forall j :: k < j < |log| ==> log[j] != WentIdle(i)
  {
    if log == [] then 0
    else if log[|log| - 1] == WentIdle(i) then |log| - 1
    else
      var k := LastIdle(log[..|log| - 1], i);
      if k == |log| - 1 then |log| else k
  }

  lemma LastIdleSnoc(log: seq<Effect>, x: Effect, i: nat)
    ensures var k := LastIdle(log, i);
            LastIdle(log + [x], i) == if x == WentIdle(i) then |log| else if k == |log| then |log| + 1 else k
  {
    assert (log + [x])[..|log|] == log;
  }

  /** Among warm entries, sequence numbers are in the order of last release. */
  lemma {:induction false} WarmOrderIsIdleOrder(es: seq<Event>, i: nat, j: nat)
    requires i < CAPACITY && j < CAPACITY
    requires After(es).slots[i].state == Warm && After(es).slots[j].state == Warm
    ensures LastIdle(Log(es), i) < |es| && LastIdle(Log(es), j) < |es|
    ensures After(es).slots[i].warmSeq < After(es).slots[j].warmSeq <==> LastIdle(Log(es), i) < LastIdle(Log(es), j)
  {
    hide After, Log, Step, EffectOf, LastIdle;
    if es == [] {
      FreshIsUnused(i);
    }
    var before, e := es[..|es| - 1], es[|es| - 1];
    var c := After(before);
    AfterIsSound(before);
    StepOnSlot(c, e, i);
    StepOnSlot(c, e, j);
    RunSnoc(es);
    LastIdleSnoc(Log(before), EffectOf(c, e), i);
    LastIdleSnoc(Log(before), EffectOf(c, e), j);
    assert SlotInv(c.slots[i], c.clock) && SlotInv(c.slots[j], c.clock);
    if c.slots[i].state == Warm && c.slots[j].state == Warm {
      WarmOrderIsIdleOrder(before, i, j);
    } else if c.slots[i].state == Warm {
      WarmOrderIsIdleOrder(before, i, i);
    } else if c.slots[j].state == Warm {
      WarmOrderIsIdleOrder(before, j, j);
    }
  }

  /** An acquire that needs a slot while none is unused evicts the entry whose last
      release to zero is the earliest in the whole history. */
  lemma EvictsEarliestIdle(es: seq<Event>, path: string, m: Module, j: nat)
    requires Find(After(es).slots, path).None?
    requires forall i :: 0 <= i < CAPACITY ==> After(es).slots[i].state != Unused
    requires Acquire(After(es), path, Pass(m)).handle.Pass?
    requires j < CAPACITY && After(es).slots[j].state == Warm
    ensures var victim := Acquire(After(es), path, Pass(m)).handle.value;
            && victim < CAPACITY
            && After(es).slots[victim].state == Warm
            && LastIdle(Log(es), victim) <= LastIdle(Log(es), j)
  {
    var c := After(es);
    ChooseIsEligible(c.slots, 0, None);
    var victim := Acquire(c, path, Pass(m)).handle.value;
    assert Eligible(c.slots, victim);
    WarmOrderIsIdleOrder(es, j, victim);
  }
}
