// Runs of the handlers after which the accounting law fails although nothing is under
// way, and a run after which one report misses a stack.
module LeakDepartures {
  import opened Machine
  import opened Packed
  import opened LeakCounters
  import opened LeakReport

  // ---------------------------------------------------------------------
  // Runs of the handlers that break the accounting law

  /** One allocation by thread `t`, from its entry handler to its summary. */
  function Allocates(t: u32, addr: u64, size: u64, now: u64, stackId: i32): seq<Step> {
    [Step(t, Enter(size))] + [Step(t, Record(addr, now, stackId)), Step(t, Reserve), Step(t, Add)]
  }

  lemma RunOne(s: State, a: Step)
    ensures Run(s, [a]) == Do(s, a.tid, a.op)
  {
    assert [a][1..] == [];
  }

  lemma AllocatesIs(s: State, t: u32, addr: u64, size: u64, now: u64, stackId: i32)
    requires s.sizes == map[] && s.pending == map[] && addr != 0 && addr != U64_MAX
    requires |s.allocs| < ALLOCS_MAX && |s.combined| < COMBINED_MAX
    ensures var key := Key(stackId);
            Run(s, Allocates(t, addr, size, now, stackId))
            == State(map[], s.allocs[addr := Info(size, now, stackId)],
                     s.combined[key := Wrap(Summary(s, key) + Pack(size))], map[])
  {
    hide Run, Do, Exited, Pack, Key, Wrap, Put;
    var enter, rest := Step(t, Enter(size)), [Step(t, Record(addr, now, stackId)), Step(t, Reserve), Step(t, Add)];
    RunConcat(s, [enter], rest);
    RunOne(s, enter);
    EnterThenExit(s, t, addr, size, now, stackId);
    ExitIsRun(s.(sizes := map[t := size]), t, addr, now, stackId);
  }

  lemma EntersAlone(s: State, t: u32, size: u64)
    requires s.sizes == map[]
    ensures Do(s, t, Enter(size)) == s.(sizes := map[t := size])
  {
  }

  lemma EnterThenExit(s: State, t: u32, addr: u64, size: u64, now: u64, stackId: i32)
    requires s.sizes == map[] && s.pending == map[] && addr != 0 && addr != U64_MAX
    requires |s.allocs| < ALLOCS_MAX && |s.combined| < COMBINED_MAX
    ensures Do(s, t, Enter(size)) == s.(sizes := map[t := size])
    ensures var key := Key(stackId);
            Exited(s.(sizes := map[t := size]), t, addr, now, stackId)
            == State(map[], s.allocs[addr := Info(size, now, stackId)],
                     s.combined[key := Wrap(Summary(s, key) + Pack(size))], map[])
  {
    hide Pack, Key, Wrap;
    assert map[t := size] - {t} == map[];
  }

  /** A second allocation reported at an address that is live. */
  function RecordsTwice(t: u32, addr: u64, size: u64, size': u64, now: u64, stackId: i32): seq<Step> {
    Allocates(t, addr, size, now, stackId) + Allocates(t, addr, size', now, stackId)
  }

  /** Once it is done the summary counts two allocations where one is live. */
  lemma RecordingOverLiveBreaksLaw(t: u32, addr: u64, size: u64, size': u64, now: u64, stackId: i32)
    requires addr != 0 && addr != U64_MAX
    ensures var s := Run(START, RecordsTwice(t, addr, size, size', now, stackId));
            s.pending == map[] && !Balanced(s, Key(stackId))
  {
    hide Run, Pack, Key, Allocates, Live, Balanced, Wrap;
    var key := Key(stackId);
    var s1 := FirstAllocation(t, addr, size, now, stackId);
    AllocatesIs(s1, t, addr, size', now, stackId);
    RunConcat(START, Allocates(t, addr, size, now, stackId), Allocates(t, addr, size', now, stackId));
    var s := Run(START, RecordsTwice(t, addr, size, size', now, stackId));
    assert s.allocs == map[addr := Info(size', now, stackId)];
    assert Summary(s, key) == Wrap(Pack(size) + Pack(size'));
    LiveOne(s, addr, Info(size', now, stackId));
    NotTwice(size, size');
    Unbalanced(s, key);
  }

  /** The state after one allocation from the start. */
  lemma FirstAllocation(t: u32, addr: u64, size: u64, now: u64, stackId: i32) returns (s: State)
    requires addr != 0 && addr != U64_MAX
    ensures s == State(map[], map[addr := Info(size, now, stackId)], map[Key(stackId) := Pack(size)], map[])
    ensures Run(START, Allocates(t, addr, size, now, stackId)) == s
  {
    hide Run, Pack, Key, Allocates;
    AllocatesIs(START, t, addr, size, now, stackId);
    s := Run(START, Allocates(t, addr, size, now, stackId));
  }

  lemma LiveOne(s: State, addr: u64, info: Info)
    requires s.allocs == map[addr := info]
    ensures Live(s, Key(info.stackId)) == Pack(info.size)
  {
    hide Total, Pack, Key;
    TotalRemove(s.allocs, LiveWeight(Key(info.stackId)), addr);
    TotalEmpty(s.allocs - {addr}, LiveWeight(Key(info.stackId)));
  }

  /** With nothing under way a summary other than the live sum breaks the law. */
  lemma Unbalanced(s: State, key: u64)
    requires s.pending == map[] && Summary(s, key) != Wrap(Live(s, key))
    ensures !Balanced(s, key)
  {
    TotalEmpty(s.pending, OwedWeight(key));
    WrapSmall(Summary(s, key));
  }

  lemma NotTwice(size: u64, size': u64)
    ensures Wrap(Pack(size) + Pack(size')) != Wrap(Pack(size'))
    ensures Wrap(0 - Pack(size)) != 0
  {
  }

  /** Threads `a` and `b` free one address, both looking it up before either deletes. */
  function FreesTwice(a: u32, b: u32, addr: u64): seq<Step> {
    [Step(a, Lookup(addr)), Step(b, Lookup(addr)), Step(a, Delete)]
    + [Step(b, Delete), Step(a, Subtract), Step(b, Subtract)]
  }

  /** Once both are done the summary is below zero with nothing live. */
  lemma RacingFreesBreakLaw(a: u32, b: u32, addr: u64, size: u64, now: u64, stackId: i32)
    requires a != b && addr != 0 && addr != U64_MAX
    ensures var s := Run(START, Allocates(a, addr, size, now, stackId) + FreesTwice(a, b, addr));
            s.pending == map[] && !Balanced(s, Key(stackId))
  {
    hide Run, Pack, Key, Allocates, Live, Balanced, FreesTwice, Wrap;
    var key, info := Key(stackId), Info(size, now, stackId);
    var s1 := FirstAllocation(a, addr, size, now, stackId);
    RunConcat(START, Allocates(a, addr, size, now, stackId), FreesTwice(a, b, addr));
    RacingFrees(s1, a, b, addr, info);
    var s := Run(s1, FreesTwice(a, b, addr));
    LiveNone(s, key);
    NotTwice(size, size);
    Unbalanced(s, key);
  }

  lemma LiveNone(s: State, key: u64)
    requires s.allocs == map[]
    ensures Live(s, key) == 0 && Wrap(0) == 0
  {
    TotalEmpty(s.allocs, LiveWeight(key));
  }

  lemma RacingFrees(s: State, a: u32, b: u32, addr: u64, info: Info)
    requires a != b && s == State(map[], map[addr := info], map[Key(info.stackId) := Pack(info.size)], map[])
    ensures Run(s, FreesTwice(a, b, addr))
         == State(map[], map[], map[Key(info.stackId) := Wrap(0 - Pack(info.size))], map[])
  {
    hide Run, Pack, Key;
    var key := Key(info.stackId);
    RunConcat(s, [Step(a, Lookup(addr)), Step(b, Lookup(addr)), Step(a, Delete)],
              [Step(b, Delete), Step(a, Subtract), Step(b, Subtract)]);
    RunThree(s, Step(a, Lookup(addr)), Step(b, Lookup(addr)), Step(a, Delete));
    var s3 := State(map[], map[], map[key := Pack(info.size)], map[a := Subtracting(info), b := Freeing(addr, info)]);
    assert Run(s, [Step(a, Lookup(addr)), Step(b, Lookup(addr)), Step(a, Delete)]) == s3 by {
      assert map[addr := info] - {addr} == map[];
    }
    RunThree(s3, Step(b, Delete), Step(a, Subtract), Step(b, Subtract));
    BothSubtract(s3, a, b, info);
  }

  lemma BothSubtract(s: State, a: u32, b: u32, info: Info)
    requires a != b && s.sizes == map[] && s.allocs == map[] && s.combined == map[Key(info.stackId) := Pack(info.size)]
    requires s.pending.Keys == {a, b} && s.pending[a] == Subtracting(info) && s.pending[b].Freeing?
             && s.pending[b].info == info
    ensures Do(Do(Do(s, b, Delete), a, Subtract), b, Subtract)
         == State(map[], map[], map[Key(info.stackId) := Wrap(0 - Pack(info.size))], map[])
  {
    hide Pack, Key, Wrap;
    var s4 := Do(s, b, Delete);
    assert s4.allocs == map[] && s4.pending == map[a := Subtracting(info), b := Subtracting(info)];
    WrapSmall(0);
    ToZero(Pack(info.size));
    var s5 := Do(s4, a, Subtract);
    assert s5 == State(map[], map[], map[Key(info.stackId) := 0], map[b := Subtracting(info)]);
    assert map[b := Subtracting(info)] - {b} == map[];
  }

  lemma ToZero(w: u64)
    ensures Wrap(w - w) == 0
  {
  }

  /** Thread `b` frees an address between its record and the summary of thread `a`. */
  function FreesEarly(a: u32, b: u32, addr: u64, size: u64, now: u64, stackId: i32): seq<Step> {
    [Step(a, Enter(size))]
    + ([Step(a, Record(addr, now, stackId)), Step(b, Lookup(addr)), Step(b, Delete)]
       + [Step(b, Subtract), Step(a, Reserve), Step(a, Add)])
  }

  /** The subtract finds no entry and is lost, the add is not: the summary counts an
      allocation with nothing live. */
  lemma FreeBeforeEntryBreaksLaw(a: u32, b: u32, addr: u64, size: u64, now: u64, stackId: i32)
    requires a != b && addr != 0 && addr != U64_MAX
    ensures var s := Run(START, FreesEarly(a, b, addr, size, now, stackId));
            s.pending == map[] && !Balanced(s, Key(stackId))
  {
    hide Run, Pack, Key, Live, Balanced, Wrap, Do, FreesEarly;
    var key := Key(stackId);
    FreedEarly(a, b, addr, size, now, stackId);
    var s := Run(START, FreesEarly(a, b, addr, size, now, stackId));
    LiveNone(s, key);
    NotZero(size);
    Unbalanced(s, key);
  }

  lemma NotZero(size: u64)
    ensures Wrap(0 + Pack(size)) == Pack(size) != 0
  {
  }

  lemma FreedEarly(a: u32, b: u32, addr: u64, size: u64, now: u64, stackId: i32)
    requires a != b && addr != 0 && addr != U64_MAX
    ensures Run(START, FreesEarly(a, b, addr, size, now, stackId))
         == State(map[], map[], map[Key(stackId) := Wrap(0 + Pack(size))], map[])
  {
    hide Run, Pack, Key, Do, Wrap;
    var info := Info(size, now, stackId);
    var enter := [Step(a, Enter(size))];
    var first := [Step(a, Record(addr, now, stackId)), Step(b, Lookup(addr)), Step(b, Delete)];
    var second := [Step(b, Subtract), Step(a, Reserve), Step(a, Add)];
    RunConcat(START, enter, first + second);
    RunOne(START, enter[0]);
    var s1 := START.(sizes := map[a := size]);
    RunConcat(s1, first, second);
    RunThree(s1, first[0], first[1], first[2]);
    var s4 := State(map[], map[], map[], map[a := Adding(info), b := Subtracting(info)]);
    RunThree(s4, second[0], second[1], second[2]);
    EntersAndRecords(a, b, addr, size, now, stackId);
    LosesSubtract(a, b, info);
  }

  lemma EntersAndRecords(a: u32, b: u32, addr: u64, size: u64, now: u64, stackId: i32)
    requires a != b && addr != 0 && addr != U64_MAX
    ensures var info, s1 := Info(size, now, stackId), START.(sizes := map[a := size]);
            && Do(START, a, Enter(size)) == s1
            && Do(Do(Do(s1, a, Record(addr, now, stackId)), b, Lookup(addr)), b, Delete)
               == State(map[], map[], map[], map[a := Adding(info), b := Subtracting(info)])
  {
    var info, s1 := Info(size, now, stackId), START.(sizes := map[a := size]);
    assert map[a := size] - {a} == map[];
    assert Do(s1, a, Record(addr, now, stackId)) == State(map[], map[addr := info], map[], map[a := Adding(info)]);
    assert map[addr := info] - {addr} == map[];
  }

  lemma LosesSubtract(a: u32, b: u32, info: Info)
    requires a != b
    ensures var s := State(map[], map[], map[], map[a := Adding(info), b := Subtracting(info)]);
            Do(Do(Do(s, b, Subtract), a, Reserve), a, Add)
            == State(map[], map[], map[Key(info.stackId) := Wrap(0 + Pack(info.size))], map[])
  {
    hide Pack, Key, Wrap, Reserved, Added;
    var s := State(map[], map[], map[], map[a := Adding(info), b := Subtracting(info)]);
    var s1 := State(map[], map[], map[], map[a := Adding(info)]);
    assert map[a := Adding(info), b := Subtracting(info)] - {b} == map[a := Adding(info)];
    assert Do(s, b, Subtract) == s1;
    ReservedAlone(s1, map[], a, info);
    var s2 := State(map[], map[], map[Key(info.stackId) := 0], map[a := Counting(info)]);
    assert Reserved(s1, a) == s2;
    AddedAlone(s2, map[], a, info);
    assert s2.combined[Key(info.stackId)] == 0;
  }

  /** Allocations at the addresses 1, 2, ..., n, each from its own stack. */
  function ManyStacks(t: u32, size: u64, now: u64, n: nat): seq<Step>
    requires n <= COMBINED_MAX
  {
    if n == 0 then [] else ManyStacks(t, size, now, n - 1) + Allocates(t, n, size, now, n - 1)
  }

  /** The state of such a run: idle, lawful, and with as many summaries as stacks. */
  ghost predicate HasStacks(s: State, n: nat) {
    && s.sizes == map[] && s.pending == map[]
    && |s.allocs| == |s.combined| == n
    && (forall addr :: addr in s.allocs ==> 1 <= addr <= n)
    && (forall key :: key in s.combined ==> key < n)
    && Law(s) && Consistent(s)
  }

  lemma {:induction false} ManyStacksFill(t: u32, size: u64, now: u64, n: nat)
    requires n <= COMBINED_MAX
    ensures HasStacks(Run(START, ManyStacks(t, size, now, n)), n)
  {
    hide Run, HasStacks, Allocates;
    if n == 0 {
      RunNone(START);
      StartHasNone();
    } else {
      var s := Run(START, ManyStacks(t, size, now, n - 1));
      ManyStacksFill(t, size, now, n - 1);
      RunConcat(START, ManyStacks(t, size, now, n - 1), Allocates(t, n, size, now, n - 1));
      OneStackMore(s, t, size, now, n);
    }
  }

  lemma RunNone(s: State)
    ensures Run(s, []) == s
  {
  }

  lemma StartHasNone()
    ensures HasStacks(START, 0)
  {
    hide Law, Consistent;
    StartIsLawful();
  }

  lemma OneStackMore(s: State, t: u32, size: u64, now: u64, n: nat)
    requires 0 < n <= COMBINED_MAX && HasStacks(s, n - 1)
    ensures HasStacks(Run(s, Allocates(t, n, size, now, n - 1)), n)
  {
    hide Run, Allocates, Law, Consistent, Guarded, Pack, Wrap, Summary, Key;
    StackIsKey(n - 1);
    AllocatesIs(s, t, n, size, now, n - 1);
    var u := Run(s, Allocates(t, n, size, now, n - 1));
    AllocationKeepsLaw(s, t, size, now, n);
    StacksGrow(s, u, n, Info(size, now, n - 1), Wrap(Summary(s, n - 1) + Pack(size)));
  }

  lemma AllocationKeepsLaw(s: State, t: u32, size: u64, now: u64, n: nat)
    requires 0 < n <= COMBINED_MAX && HasStacks(s, n - 1)
    ensures Law(Run(s, Allocates(t, n, size, now, n - 1))) && Consistent(Run(s, Allocates(t, n, size, now, n - 1)))
  {
    hide Run, Allocates, Law, Consistent, Guarded;
    AllocationIsGuarded(s, t, size, now, n);
    GuardedRunsKeepLaw(s, Allocates(t, n, size, now, n - 1));
  }

  lemma StacksGrow(s: State, u: State, n: nat, info: Info, word: u64)
    requires 0 < n <= COMBINED_MAX && HasStacks(s, n - 1) && Law(u) && Consistent(u)
    requires u == State(map[], s.allocs[n := info], s.combined[n - 1 := word], map[])
    ensures HasStacks(u, n)
  {
    hide Law, Consistent;
    PutNew(s.allocs, n, info);
    PutNew(s.combined, n - 1, word);
  }

  lemma StackIsKey(stackId: i32)
    requires stackId >= 0
    ensures Key(stackId) == stackId
  {
  }

  lemma PutNew<K, V>(m: map<K, V>, k: K, v: V)
    requires k !in m
    ensures |m[k := v]| == |m| + 1
  {
    assert m[k := v].Keys == m.Keys + {k};
    assert |m.Keys + {k}| == |m.Keys| + 1;
  }

  lemma AllocationIsGuarded(s: State, t: u32, size: u64, now: u64, n: nat)
    requires 0 < n <= COMBINED_MAX && HasStacks(s, n - 1)
    ensures Guarded(s, Allocates(t, n, size, now, n - 1))
  {
    hide Law, Consistent, Pack, Key, Wrap, Recorded, Reserved, Added, Guarded, Put;
    EntersAlone(s, t, size);
    var s1 := s.(sizes := map[t := size]);
    RecordAlone(s1, t, n, now, n - 1);
    GuardedFour(s, Step(t, Enter(size)), Step(t, Record(n, now, n - 1)), Step(t, Reserve), Step(t, Add));
  }

  lemma GuardedFour(s: State, a: Step, b: Step, c: Step, d: Step)
    requires var s1 := Do(s, a.tid, a.op);
             var s2 := Do(s1, b.tid, b.op);
             var s3 := Do(s2, c.tid, c.op);
             Guard(s, a.tid, a.op) && Guard(s1, b.tid, b.op) && Guard(s2, c.tid, c.op) && Guard(s3, d.tid, d.op)
    ensures Guarded(s, [a] + [b, c, d])
  {
    hide Do, Guard;
    var s1 := Do(s, a.tid, a.op);
    var s2 := Do(s1, b.tid, b.op);
    assert ([a] + [b, c, d])[1..] == [b, c, d] && [b, c, d][1..] == [c, d] && [c, d][1..] == [d] && [d][1..] == [];
    assert Guarded(Do(s2, c.tid, c.op), [d]);
    assert Guarded(s2, [c, d]);
    assert Guarded(s1, [b, c, d]);
  }

  /** One more allocation, from a stack the summaries have no room for. */
  function OneTooMany(t: u32, size: u64, now: u64): seq<Step> {
    ManyStacks(t, size, now, 10240)
    + [Step(t, Enter(size)), Step(t, Record(10240 + 1, now, 10240)), Step(t, Reserve)]
  }

  /** It is live and in no summary. */
  lemma FullSummariesBreakLaw(t: u32, size: u64, now: u64)
    ensures var s := Run(START, OneTooMany(t, size, now));
            s.pending == map[] && !Law(s)
  {
    hide Run, ManyStacks, HasStacks, Do, Law;
    var s := Run(START, ManyStacks(t, size, now, 10240));
    ManyStacksFill(t, size, now, 10240);
    var enter, record := Step(t, Enter(size)), Step(t, Record(10240 + 1, now, 10240));
    RunConcat(START, ManyStacks(t, size, now, 10240), [enter, record, Step(t, Reserve)]);
    RunThree(s, enter, record, Step(t, Reserve));
    NoRoomLeft(s, t, size, now);
  }

  lemma NoRoomLeft(s: State, t: u32, size: u64, now: u64)
    requires HasStacks(s, COMBINED_MAX)
    ensures var u := Do(Do(Do(s, t, Enter(size)), t, Record(COMBINED_MAX + 1, now, COMBINED_MAX)), t, Reserve);
            u.pending == map[] && !Law(u)
  {
    hide Law, Consistent, Pack, Recorded, Key, Wrap;
    var addr, info := COMBINED_MAX + 1, Info(size, now, COMBINED_MAX);
    EntersAlone(s, t, size);
    var s1 := s.(sizes := map[t := size]);
    StepKeepsLawIff(s, t, Enter(size));
    StepKeepsConsistent(s, t, Enter(size));
    RecordAlone(s1, t, addr, now, COMBINED_MAX);
    StepKeepsLawIff(s1, t, Record(addr, now, COMBINED_MAX));
    StepKeepsConsistent(s1, t, Record(addr, now, COMBINED_MAX));
    var s2 := Do(s1, t, Record(addr, now, COMBINED_MAX));
    StackIsKey(COMBINED_MAX);
    StepKeepsLawIff(s2, t, Reserve);
    assert map[t := Adding(info)] - {t} == map[];
  }

  // ---------------------------------------------------------------------
  // A report that misses a stack

  /** The kernel numbers stacks from 0: an allocation from stack 0 is grouped by one
      report and not reached by the other. */
  lemma StackZeroIsMissed(t: u32, addr: u64, size: u64, now: u64)
    requires addr != 0 && addr != U64_MAX
    ensures var s := Run(START, Allocates(t, addr, size, now, 0));
            && s.pending == map[] && Enumerates([0], s.combined) && Enumerates([addr], s.allocs)
            && Visited([0]) == [] && Visited([addr]) == [addr]
            && EntryFor(Grouped([addr], s.allocs, _ => now, 0, false), 0) == Some(Allocation(0, size, 1, []))
  {
    hide Run, Pack, Allocates;
    AllocatesIs(START, t, addr, size, now, 0);
    var s := Run(START, Allocates(t, addr, size, now, 0));
    assert Key(0) == 0;
    assert s.combined == map[0 := Pack(size)] && s.allocs == map[addr := Info(size, now, 0)];
    assert IndexOf([0], 0) == 0 && [0][1..] == [];
    assert [addr][1..] == [] && IndexOf([addr], 0) == 1;
    assert [addr][..0] == [];
    assert Grouped([addr], s.allocs, _ => now, 0, false) == AddTo([], addr, s.allocs[addr], false);
  }
}
