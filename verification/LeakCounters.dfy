// The allocation maps of examples/memleak_bcc_dwunw/memleak_dwunw.bpf.c and the
// interleavings of the handlers that update them.
//
// A handler touches several maps one after another, so handlers of different
// threads interleave. A step here is one operation on the maps that threads share,
// `allocs` and `combined`; a thread's own entry of `sizes` is looked up and deleted in
// the step that records its allocation. `pending` holds, for a thread inside a handler,
// what the rest of the handler will do.
module LeakCounters {
  import opened Machine
  import opened Packed

  type i32 = x: int | -0x8000_0000 <= x < 0x8000_0000

  const SIZES_MAX: nat := 10240
  const ALLOCS_MAX: nat := 1000000
  const COMBINED_MAX: nat := 10240

  datatype Info = Info(size: u64, timestamp: u64, stackId: i32)

  /** The summary key of a stack: its id converted to 64 bits. */
  function Key(stackId: i32): u64 {
    Wrap(stackId)
  }

  datatype Pending =
    | Adding(info: Info)               // recorded; its summary entry not looked up yet
    | Counting(info: Info)             // summary entry found; atomic add to come
    | Freeing(addr: u64, info: Info)   // looked up; not deleted yet
    | Subtracting(info: Info)          // deleted; atomic subtract to come

  datatype State = State(
    sizes: map<u32, u64>, allocs: map<u64, Info>, combined: map<u64, u64>, pending: map<u32, Pending>)

  /** `bpf_map_update_elem` on a bounded map: a new key needs room. */
  function Put<K, V>(m: map<K, V>, k: K, v: V, max: nat): map<K, V> {
    if k in m || |m| < max then m[k := v] else m
  }

  datatype Op =
    | Enter(size: u64)
    | Record(addr: u64, now: u64, stackId: i32)
    | Reserve
    | Add
    | Lookup(addr: u64)
    | Delete
    | Subtract

  /** Addresses that mark a failed allocation. */
  predicate NoAddress(addr: u64) {
    addr == 0 || addr == U64_MAX
  }

  /** The thread is inside a handler, at the given point. */
  predicate IsAdding(s: State, tid: u32) {
    tid in s.pending && s.pending[tid].Adding?
  }

  predicate IsCounting(s: State, tid: u32) {
    tid in s.pending && s.pending[tid].Counting?
  }

  predicate IsFreeing(s: State, tid: u32) {
    tid in s.pending && s.pending[tid].Freeing?
  }

  predicate IsSubtracting(s: State, tid: u32) {
    tid in s.pending && s.pending[tid].Subtracting?
  }

  /** `gen_alloc_exit2` up to the record of the address; the result of the update
      is ignored, so the statistics follow even when there was no room. */
  function Recorded(s: State, tid: u32, addr: u64, now: u64, stackId: i32): State {
    if tid in s.pending || tid !in s.sizes then s
    else if NoAddress(addr) then s.(sizes := s.sizes - {tid})
    else
      var info := Info(s.sizes[tid], now, stackId);
      State(s.sizes - {tid}, Put(s.allocs, addr, info, ALLOCS_MAX), s.combined, s.pending[tid := Adding(info)])
  }

  /** `bpf_map_lookup_or_try_init` of the summary entry. */
  function Reserved(s: State, tid: u32): State
    requires IsAdding(s, tid)
  {
    var info := s.pending[tid].info;
    var key := Key(info.stackId);
    if key in s.combined then s.(pending := s.pending[tid := Counting(info)])
    else if |s.combined| < COMBINED_MAX then
      s.(combined := s.combined[key := 0], pending := s.pending[tid := Counting(info)])
    else s.(pending := s.pending - {tid})
  }

  function Added(s: State, tid: u32): State
    requires IsCounting(s, tid)
  {
    var info := s.pending[tid].info;
    var key := Key(info.stackId);
    if key !in s.combined then s
    else s.(combined := s.combined[key := Wrap(s.combined[key] + Pack(info.size))], pending := s.pending - {tid})
  }

  function Deleted(s: State, tid: u32): State
    requires IsFreeing(s, tid)
  {
    s.(allocs := s.allocs - {s.pending[tid].addr}, pending := s.pending[tid := Subtracting(s.pending[tid].info)])
  }

  function Subtracted(s: State, tid: u32): State
    requires IsSubtracting(s, tid)
  {
    var info := s.pending[tid].info;
    var key := Key(info.stackId);
    if key !in s.combined then s.(pending := s.pending - {tid})
    else s.(combined := s.combined[key := Wrap(s.combined[key] - Pack(info.size))], pending := s.pending - {tid})
  }

  /** One step of thread `tid`; an operation its handler is not at does nothing. */
  function Do(s: State, tid: u32, op: Op): State {
    match op
    case Enter(size) => s.(sizes := Put(s.sizes, tid, size, SIZES_MAX))
    case Record(addr, now, stackId) => Recorded(s, tid, addr, now, stackId)
    case Reserve => if IsAdding(s, tid) then Reserved(s, tid) else s
    case Add => if IsCounting(s, tid) then Added(s, tid) else s
    case Lookup(addr) =>
      if tid in s.pending || addr !in s.allocs then s
      else s.(pending := s.pending[tid := Freeing(addr, s.allocs[addr])])
    case Delete => if IsFreeing(s, tid) then Deleted(s, tid) else s
    case Subtract => if IsSubtracting(s, tid) then Subtracted(s, tid) else s
  }

  // ---------------------------------------------------------------------
  // Sums over maps

  /** The sum of a weight over the values of a map. */
  ghost function Total<K, V>(m: map<K, V>, w: V -> int): int
    decreases |m|
  {
    if m.Keys == {} then 0
    else
      var k :| k in m.Keys;
      w(m[k]) + Total(m - {k}, w)
  }

  /** The value that the sum takes first. */
  lemma FirstTaken<K, V>(m: map<K, V>, w: V -> int) returns (j: K)
    requires m.Keys != {}
    ensures j in m && Total(m, w) == w(m[j]) + Total(m - {j}, w)
  {
    j :| j in m.Keys && Total(m, w) == w(m[j]) + Total(m - {j}, w);
  }

  /** Any value can be taken out of the sum. */
  lemma {:induction false} TotalRemove<K, V>(m: map<K, V>, w: V -> int, k: K)
    requires k in m
    ensures Total(m, w) == w(m[k]) + Total(m - {k}, w)
    decreases |m|
  {
    hide Total;
    var j := FirstTaken(m, w);
    if j != k {
      TotalRemove(m - {j}, w, k);
      TotalRemove(m - {k}, w, j);
      assert m - {j} - {k} == m - {k} - {j};
    }
  }

  lemma TotalPut<K, V>(m: map<K, V>, w: V -> int, k: K, v: V)
    ensures Total(m[k := v], w) == Total(m, w) + w(v) - if k in m then w(m[k]) else 0
  {
    TotalRemove(m[k := v], w, k);
    assert m[k := v] - {k} == m - {k};
    if k in m {
      TotalRemove(m, w, k);
    } else {
      assert m - {k} == m;
    }
  }

  lemma TotalEmpty<K, V>(m: map<K, V>, w: V -> int)
    requires m == map[]
    ensures Total(m, w) == 0
  {
  }

  lemma PutRemove<K, V>(m: map<K, V>, k: K, a: V, b: V)
    requires k !in m
    ensures m[k := a] - {k} == m && m[k := a][k := b] - {k} == m
  {
  }

  // ---------------------------------------------------------------------
  // The conservation law

  /** What a recorded allocation contributes to the summary of `key`. */
  function LiveWeight(key: u64): Info -> int {
    (info: Info) => if Key(info.stackId) == key then Pack(info.size) else 0
  }

  /** What a handler under way still owes it. */
  function OwedWeight(key: u64): Pending -> int {
    (p: Pending) =>
      if Key(p.info.stackId) != key then 0
      else if p.Adding? || p.Counting? then Pack(p.info.size)
      else if p.Subtracting? then 0 - Pack(p.info.size)
      else 0
  }

  function Summary(s: State, key: u64): u64 {
    if key in s.combined then s.combined[key] else 0
  }

  ghost function Live(s: State, key: u64): int {
    Total(s.allocs, LiveWeight(key))
  }

  ghost function Owed(s: State, key: u64): int {
    Total(s.pending, OwedWeight(key))
  }

  /** The summary, corrected by what is under way, is the packed sum over the live
      allocations, modulo 2^64. */
  ghost predicate Balanced(s: State, key: u64) {
    Wrap(Summary(s, key) + Owed(s, key)) == Wrap(Live(s, key))
  }

  ghost predicate Law(s: State) {
    forall key: u64 :: Balanced(s, key)
  }

  /** A thread about to add has found its summary entry. */
  ghost predicate Consistent(s: State) {
    forall t :: t in s.pending && s.pending[t].Counting? ==> Key(s.pending[t].info.stackId) in s.combined
  }

  /** When the step is harmless: a recorded address is new and there is room for it;
      the summary has room for a new stack; what is deleted is still what was looked
      up; and a stack being subtracted from has a summary entry. */
  ghost predicate Guard(s: State, tid: u32, op: Op) {
    match op
    case Enter(_) => true
    case Record(addr, _, _) =>
      tid in s.pending || tid !in s.sizes || NoAddress(addr) || (addr !in s.allocs && |s.allocs| < ALLOCS_MAX)
    case Reserve =>
      IsAdding(s, tid) ==>
        Key(s.pending[tid].info.stackId) in s.combined || |s.combined| < COMBINED_MAX
    case Add => true
    case Lookup(_) => true
    case Delete =>
      IsFreeing(s, tid) ==>
        && s.pending[tid].addr in s.allocs
        && Key(s.allocs[s.pending[tid].addr].stackId) == Key(s.pending[tid].info.stackId)
        && Pack(s.allocs[s.pending[tid].addr].size) == Pack(s.pending[tid].info.size)
    case Subtract =>
      IsSubtracting(s, tid) ==> Key(s.pending[tid].info.stackId) in s.combined
  }

  /** How a step changes both sides of the law for `key`. */
  ghost function Drift(s: State, t: State, key: u64): int {
    (Summary(t, key) + Owed(t, key) - Live(t, key)) - (Summary(s, key) + Owed(s, key) - Live(s, key))
  }

  lemma BalancedDrift(s: State, t: State, key: u64)
    requires Balanced(s, key)
    ensures Balanced(t, key) <==> Wrap(Drift(s, t, key)) == 0
  {
    var a, b := Summary(s, key) + Owed(s, key), Live(s, key);
    var c, d := Summary(t, key) + Owed(t, key), Live(t, key);
    WrapDifference(a, b, c, d);
  }

  lemma WrapDifference(a: int, b: int, c: int, d: int)
    requires Wrap(a) == Wrap(b)
    ensures Wrap(c) == Wrap(d) <==> Wrap((c - d) - (a - b)) == 0
  {
  }

  /** A weight counted for one key only. */
  function At(key: u64, key': u64, x: int): int {
    if key == key' then x else 0
  }

  lemma RecordDrift(s: State, tid: u32, addr: u64, now: u64, stackId: i32, key: u64)
    requires tid !in s.pending && tid in s.sizes && !NoAddress(addr)
    ensures var info := Info(s.sizes[tid], now, stackId);
            Drift(s, Recorded(s, tid, addr, now, stackId), key)
            == if addr in s.allocs then
                 At(Key(s.allocs[addr].stackId), key, Pack(s.allocs[addr].size))
               else if |s.allocs| < ALLOCS_MAX then 0
               else At(Key(stackId), key, Pack(s.sizes[tid]))
  {
    hide Total, Pack, Key;
    var info := Info(s.sizes[tid], now, stackId);
    TotalPut(s.allocs, LiveWeight(key), addr, info);
    TotalPut(s.pending, OwedWeight(key), tid, Adding(info));
  }

  lemma ReserveDrift(s: State, tid: u32, key: u64)
    requires IsAdding(s, tid)
    ensures var info := s.pending[tid].info;
            Drift(s, Reserved(s, tid), key)
            == if Key(info.stackId) in s.combined || |s.combined| < COMBINED_MAX then 0
               else 0 - At(Key(info.stackId), key, Pack(info.size))
  {
    hide Total, Pack, Key;
    TotalPut(s.pending, OwedWeight(key), tid, Counting(s.pending[tid].info));
    TotalRemove(s.pending, OwedWeight(key), tid);
  }

  lemma AddDrift(s: State, tid: u32, key: u64)
    requires Consistent(s) && IsCounting(s, tid)
    ensures Wrap(Drift(s, Added(s, tid), key)) == 0
  {
    hide Total, Pack, Key;
    TotalRemove(s.pending, OwedWeight(key), tid);
    var info := s.pending[tid].info;
    if Key(info.stackId) == key {
      WrapStep(s.combined[key], Pack(info.size));
    }
  }

  lemma WrapStep(w: u64, x: int)
    ensures Wrap(Wrap(w + x) - w - x) == 0
  {
  }

  lemma LookupDrift(s: State, tid: u32, addr: u64, key: u64)
    ensures Drift(s, Do(s, tid, Lookup(addr)), key) == 0
  {
    if tid !in s.pending && addr in s.allocs {
      TotalPut(s.pending, OwedWeight(key), tid, Freeing(addr, s.allocs[addr]));
    }
  }

  lemma DeleteDrift(s: State, tid: u32, key: u64)
    requires IsFreeing(s, tid)
    ensures var p := s.pending[tid];
            Drift(s, Deleted(s, tid), key)
            == (if p.addr in s.allocs then At(Key(s.allocs[p.addr].stackId), key, Pack(s.allocs[p.addr].size)) else 0)
               - At(Key(p.info.stackId), key, Pack(p.info.size))
  {
    hide Total, Pack, Key;
    var p := s.pending[tid];
    TotalPut(s.pending, OwedWeight(key), tid, Subtracting(p.info));
    if p.addr in s.allocs {
      TotalRemove(s.allocs, LiveWeight(key), p.addr);
    } else {
      assert s.allocs - {p.addr} == s.allocs;
    }
  }

  lemma SubtractDrift(s: State, tid: u32, key: u64)
    requires IsSubtracting(s, tid)
    ensures var info := s.pending[tid].info;
            Wrap(Drift(s, Subtracted(s, tid), key))
            == if Key(info.stackId) in s.combined then 0 else At(Key(info.stackId), key, Pack(info.size))
  {
    hide Total, Pack, Key;
    TotalRemove(s.pending, OwedWeight(key), tid);
    var info := s.pending[tid].info;
    if Key(info.stackId) == key && key in s.combined {
      WrapStep(s.combined[key], 0 - Pack(info.size));
    }
  }

  /** A step keeps the law exactly when its guard holds. */
  lemma StepKeepsLawIff(s: State, tid: u32, op: Op)
    requires Law(s) && Consistent(s)
    ensures Law(Do(s, tid, op)) <==> Guard(s, tid, op)
  {
    hide Recorded, Reserved, Added, Deleted, Subtracted, Total, Balanced, Summary, Live, Owed, Drift, Key, Pack;
    var t := Do(s, tid, op);
    forall key: u64 ensures Balanced(t, key) <==> Wrap(Drift(s, t, key)) == 0 {
      assert Balanced(s, key);
      BalancedDrift(s, t, key);
    }
    if Idles(s, tid, op) {
      IdleDrift(s, tid, op);
    } else {
      match op
      case Enter(_) => IdleDrift(s, tid, op);
      case Record(addr, now, stackId) =>
        forall key: u64 {
          RecordDrift(s, tid, addr, now, stackId, key);
        }
        assert Balanced(t, if addr in s.allocs then Key(s.allocs[addr].stackId) else Key(stackId))
          <==> Guard(s, tid, op);
      case Reserve =>
        forall key: u64 {
          ReserveDrift(s, tid, key);
        }
        assert Balanced(t, Key(s.pending[tid].info.stackId)) <==> Guard(s, tid, op);
      case Add =>
        forall key: u64 {
          AddDrift(s, tid, key);
        }
      case Lookup(addr) =>
        forall key: u64 {
          LookupDrift(s, tid, addr, key);
        }
      case Delete =>
        forall key: u64 {
          DeleteDrift(s, tid, key);
        }
        assert Balanced(t, Key(s.pending[tid].info.stackId)) <==> Guard(s, tid, op);
      case Subtract =>
        forall key: u64 {
          SubtractDrift(s, tid, key);
        }
        assert Balanced(t, Key(s.pending[tid].info.stackId)) <==> Guard(s, tid, op);
    }
  }

  /** The thread's handler is not at the operation, or the operation touches only
      the pending sizes. */
  ghost predicate Idles(s: State, tid: u32, op: Op) {
    match op
    case Enter(_) => true
    case Record(addr, _, _) => tid in s.pending || tid !in s.sizes || NoAddress(addr)
    case Reserve => !IsAdding(s, tid)
    case Delete => !IsFreeing(s, tid)
    case Add => !IsCounting(s, tid)
    case Subtract => !IsSubtracting(s, tid)
    case _ => false
  }

  /** A step that leaves allocations, summaries and debts alone. */
  lemma IdleDrift(s: State, tid: u32, op: Op)
    requires Idles(s, tid, op)
    ensures forall key: u64 :: Drift(s, Do(s, tid, op), key) == 0
  {
  }

  /** Other threads keep what they had, and summary entries are never removed. */
  lemma ConsistentAfter(s: State, t: State, tid: u32)
    requires Consistent(s) && s.combined.Keys <= t.combined.Keys
    requires forall u :: u in t.pending && u != tid ==> u in s.pending && t.pending[u] == s.pending[u]
    requires IsCounting(t, tid) ==> Key(t.pending[tid].info.stackId) in t.combined
    ensures Consistent(t)
  {
    hide Key;
  }

  /** What the three summary operations leave alone. */
  lemma ReservedFrame(s: State, tid: u32)
    requires IsAdding(s, tid)
    ensures Reserved(s, tid).allocs == s.allocs
    ensures Consistent(s) ==> Consistent(Reserved(s, tid))
  {
    hide Consistent, Key;
    if Consistent(s) {
      ConsistentAfter(s, Reserved(s, tid), tid);
    }
  }

  lemma AddedFrame(s: State, tid: u32)
    requires IsCounting(s, tid)
    ensures Added(s, tid).allocs == s.allocs
    ensures Consistent(s) ==> Consistent(Added(s, tid))
  {
    hide Consistent, Key, Wrap, Pack;
    if Consistent(s) {
      CountingHasEntry(s, tid);
      ConsistentAfter(s, Added(s, tid), tid);
    }
  }

  lemma SubtractedFrame(s: State, tid: u32)
    requires IsSubtracting(s, tid)
    ensures Subtracted(s, tid).allocs == s.allocs
    ensures Consistent(s) ==> Consistent(Subtracted(s, tid))
  {
    hide Consistent, Key, Wrap, Pack;
    if Consistent(s) {
      ConsistentAfter(s, Subtracted(s, tid), tid);
    }
  }

  lemma RecordedConsistent(s: State, tid: u32, addr: u64, now: u64, stackId: i32)
    requires Consistent(s)
    ensures Consistent(Recorded(s, tid, addr, now, stackId))
  {
    CountingHasEntry(s, tid);
    hide Consistent, Key, Put;
    ConsistentAfter(s, Recorded(s, tid, addr, now, stackId), tid);
  }

  lemma StepKeepsConsistent(s: State, tid: u32, op: Op)
    requires Consistent(s)
    ensures Consistent(Do(s, tid, op))
  {
    CountingHasEntry(s, tid);
    hide Key, Consistent, Put, Recorded, Reserved, Added, Subtracted;
    match op
    case Record(addr, now, stackId) => RecordedConsistent(s, tid, addr, now, stackId);
    case Reserve => if IsAdding(s, tid) { ReservedFrame(s, tid); }
    case Add => if IsCounting(s, tid) { AddedFrame(s, tid); }
    case Delete => if IsFreeing(s, tid) { ConsistentAfter(s, Deleted(s, tid), tid); }
    case Subtract => if IsSubtracting(s, tid) { SubtractedFrame(s, tid); }
    case Lookup(_) => ConsistentAfter(s, Do(s, tid, op), tid);
    case Enter(_) => ConsistentAfter(s, Do(s, tid, op), tid);
  }

  lemma CountingHasEntry(s: State, tid: u32)
    requires Consistent(s)
    ensures IsCounting(s, tid) ==> Key(s.pending[tid].info.stackId) in s.combined
  {
  }

  // ---------------------------------------------------------------------
  // Runs

  datatype Step = Step(tid: u32, op: Op)

  function Run(s: State, steps: seq<Step>): State
    decreases |steps|
  {
    if steps == [] then s else Run(Do(s, steps[0].tid, steps[0].op), steps[1..])
  }

  lemma {:induction false} RunConcat(s: State, a: seq<Step>, b: seq<Step>)
    ensures Run(s, a + b) == Run(Run(s, a), b)
    decreases |a|
  {
    hide Do;
    if a == [] {
      assert a + b == b;
    } else {
      assert (a + b)[1..] == a[1..] + b;
      RunConcat(Do(s, a[0].tid, a[0].op), a[1..], b);
    }
  }

  ghost predicate Guarded(s: State, steps: seq<Step>)
    decreases |steps|
  {
    steps != [] ==> Guard(s, steps[0].tid, steps[0].op) && Guarded(Do(s, steps[0].tid, steps[0].op), steps[1..])
  }

  const START: State := State(map[], map[], map[], map[])

  lemma StartIsLawful()
    ensures Law(START) && Consistent(START)
  {
    forall key: u64 ensures Balanced(START, key) {
      TotalEmpty(START.allocs, LiveWeight(key));
      TotalEmpty(START.pending, OwedWeight(key));
    }
  }

  lemma {:induction false} GuardedRunsKeepLaw(s: State, steps: seq<Step>)
    requires Law(s) && Consistent(s) && Guarded(s, steps)
    ensures Law(Run(s, steps)) && Consistent(Run(s, steps))
    decreases |steps|
  {
    hide Law, Consistent, Do, Guard;
    if steps != [] {
      StepKeepsLawIff(s, steps[0].tid, steps[0].op);
      StepKeepsConsistent(s, steps[0].tid, steps[0].op);
      GuardedRunsKeepLaw(Do(s, steps[0].tid, steps[0].op), steps[1..]);
    }
  }

  /** A run keeps the law all the way exactly when each of its steps is guarded. */
  lemma {:induction false} RunKeepsLawIff(s: State, steps: seq<Step>)
    requires Law(s) && Consistent(s)
    ensures (forall n :: 0 <= n <= |steps| ==> Law(Run(s, steps[..n]))) <==> Guarded(s, steps)
    decreases |steps|
  {
    hide Law, Consistent, Do, Guard;
    if steps == [] {
      assert steps[..0] == [];
    } else {
      var next := Do(s, steps[0].tid, steps[0].op);
      StepKeepsLawIff(s, steps[0].tid, steps[0].op);
      StepKeepsConsistent(s, steps[0].tid, steps[0].op);
      assert forall n :: 0 < n <= |steps| ==> Run(s, steps[..n]) == Run(next, steps[1..][..n - 1]) by {
        forall n | 0 < n <= |steps| ensures Run(s, steps[..n]) == Run(next, steps[1..][..n - 1]) {
          assert steps[..n][1..] == steps[1..][..n - 1];
        }
      }
      assert Run(s, steps[..1]) == next by {
        assert steps[1..][..0] == [];
      }
      if Law(next) {
        RunKeepsLawIff(next, steps[1..]);
        assert forall n :: 0 <= n <= |steps| - 1 ==> Run(next, steps[1..][..n]) == Run(s, steps[..n + 1]);
        assert Run(s, steps[..0]) == s;
        if Guarded(next, steps[1..]) {
          forall n | 0 <= n <= |steps| ensures Law(Run(s, steps[..n])) {
            if n > 0 {
              assert Law(Run(next, steps[1..][..n - 1]));
            }
          }
        }
      }
    }
  }

  /** The live allocations never hold an address that marks a failure and never exceed
      their bound. */
  ghost predicate AllocsInBounds(s: State) {
    0 !in s.allocs && 0xffff_ffff_ffff_ffff !in s.allocs && |s.allocs| <= 1000000
  }

  lemma StepKeepsBounds(s: State, tid: u32, op: Op)
    requires AllocsInBounds(s)
    ensures AllocsInBounds(Do(s, tid, op))
  {
    hide Key, Pack, Wrap, Put;
    match op
    case Record(addr, now, stackId) =>
      if tid in s.sizes && !NoAddress(addr) {
        PutBounded(s.allocs, addr, Info(s.sizes[tid], now, stackId), ALLOCS_MAX);
      }
    case Delete =>
      if IsFreeing(s, tid) {
        RemoveShrinks(s.allocs, s.pending[tid].addr);
      }
    case _ =>
      AllocsUnchanged(s, tid, op);
  }

  lemma AllocsUnchanged(s: State, tid: u32, op: Op)
    requires !op.Record? && !op.Delete?
    ensures Do(s, tid, op).allocs == s.allocs
  {
    hide Reserved, Added, Subtracted, Put;
    if IsAdding(s, tid) {
      ReservedFrame(s, tid);
    } else if IsCounting(s, tid) {
      AddedFrame(s, tid);
    } else if IsSubtracting(s, tid) {
      SubtractedFrame(s, tid);
    }
  }

  lemma PutBounded<K, V>(m: map<K, V>, k: K, v: V, max: nat)
    requires |m| <= max
    ensures |Put(m, k, v, max)| <= max
    ensures forall j :: j in Put(m, k, v, max) ==> j in m || j == k
  {
    assert m[k := v].Keys == m.Keys + {k};
  }

  lemma {:induction false} RunKeepsBounds(s: State, steps: seq<Step>)
    requires AllocsInBounds(s)
    ensures AllocsInBounds(Run(s, steps))
    decreases |steps|
  {
    hide Do, AllocsInBounds;
    if steps != [] {
      StepKeepsBounds(s, steps[0].tid, steps[0].op);
      RunKeepsBounds(Do(s, steps[0].tid, steps[0].op), steps[1..]);
    }
  }

  lemma RemoveShrinks<K, V>(m: map<K, V>, k: K)
    ensures |m - {k}| <= |m|
  {
    assert (m - {k}).Keys == m.Keys - {k};
    assert |(m - {k}).Keys| == |m - {k}|;
  }

  // ---------------------------------------------------------------------
  // Where the live allocations come from

  /** Step `j` is the last entry of thread `tid` into an allocation, for `size` bytes. */
  ghost predicate LastEnter(steps: seq<Step>, tid: u32, size: u64, j: nat) {
    && j < |steps| && steps[j] == Step(tid, Enter(size))
    && forall i :: j < i < |steps| && steps[i].tid == tid ==> !steps[i].op.Enter?
  }

  ghost predicate SizesKnown(steps: seq<Step>, sizes: map<u32, u64>) {
    forall tid :: tid in sizes ==> exists j: nat :: LastEnter(steps, tid, sizes[tid], j)
  }

  /** Step `k` recorded the allocation: at its address, which is neither 0 nor all ones,
      with its time and stack, and the size of its thread's last entry before. */
  ghost predicate IsSource(steps: seq<Step>, addr: u64, info: Info, k: nat) {
    && k < |steps| && addr != 0 && addr != 0xffff_ffff_ffff_ffff
    && steps[k].op == Record(addr, info.timestamp, info.stackId)
    && exists j: nat :: LastEnter(steps[..k], steps[k].tid, info.size, j)
  }

  ghost predicate AllocsKnown(steps: seq<Step>, allocs: map<u64, Info>) {
    forall addr :: addr in allocs ==> exists k: nat :: IsSource(steps, addr, allocs[addr], k)
  }

  lemma EnterLater(steps: seq<Step>, x: Step, tid: u32, size: u64, j: nat)
    requires LastEnter(steps, tid, size, j) && !(x.tid == tid && x.op.Enter?)
    ensures LastEnter(steps + [x], tid, size, j)
  {
    assert forall i :: 0 <= i < |steps| ==> (steps + [x])[i] == steps[i];
  }

  lemma EnterNow(steps: seq<Step>, tid: u32, size: u64)
    ensures LastEnter(steps + [Step(tid, Enter(size))], tid, size, |steps|)
  {
  }

  lemma SourceLater(steps: seq<Step>, x: Step, addr: u64, info: Info, k: nat)
    requires IsSource(steps, addr, info, k)
    ensures IsSource(steps + [x], addr, info, k)
  {
    assert (steps + [x])[..k] == steps[..k];
  }

  /** The pending sizes after a step are those of last entries. */
  lemma SizesStayKnown(steps: seq<Step>, s: State, x: Step)
    requires SizesKnown(steps, s.sizes)
    ensures SizesKnown(steps + [x], Do(s, x.tid, x.op).sizes)
  {
    hide LastEnter, Reserved, Added, Subtracted;
    SizesAfter(s, x);
    var sizes := Do(s, x.tid, x.op).sizes;
    forall tid | tid in sizes ensures exists j: nat :: LastEnter(steps + [x], tid, sizes[tid], j) {
      if x.tid == tid && x.op.Enter? {
        EnterNow(steps, tid, x.op.size);
      } else {
        var j: nat :| LastEnter(steps, tid, s.sizes[tid], j);
        EnterLater(steps, x, tid, s.sizes[tid], j);
      }
    }
  }

  lemma SizesAfter(s: State, x: Step)
    ensures var sizes := Do(s, x.tid, x.op).sizes;
            forall tid :: tid in sizes ==>
              if x.tid == tid && x.op.Enter? then sizes[tid] == x.op.size
              else tid in s.sizes && sizes[tid] == s.sizes[tid]
  {
    hide Key, Pack, Wrap;
  }

  /** So are the live allocations those of record steps. */
  lemma AllocsStayKnown(steps: seq<Step>, s: State, x: Step)
    requires SizesKnown(steps, s.sizes) && AllocsKnown(steps, s.allocs)
    ensures AllocsKnown(steps + [x], Do(s, x.tid, x.op).allocs)
  {
    hide LastEnter, Do;
    AllocsAfter(s, x);
    var allocs := Do(s, x.tid, x.op).allocs;
    forall addr | addr in allocs ensures exists k: nat :: IsSource(steps + [x], addr, allocs[addr], k) {
      if addr in s.allocs && allocs[addr] == s.allocs[addr] {
        var k: nat :| IsSource(steps, addr, s.allocs[addr], k);
        SourceLater(steps, x, addr, s.allocs[addr], k);
      } else {
        assert (steps + [x])[..|steps|] == steps;
        assert IsSource(steps + [x], addr, allocs[addr], |steps|);
      }
    }
  }

  lemma AllocsAfter(s: State, x: Step)
    ensures var allocs := Do(s, x.tid, x.op).allocs;
            forall addr :: addr in allocs ==>
              || (addr in s.allocs && allocs[addr] == s.allocs[addr])
              || (x.tid in s.sizes && addr != 0 && addr != 0xffff_ffff_ffff_ffff
                  && x.op == Record(addr, allocs[addr].timestamp, allocs[addr].stackId)
                  && allocs[addr].size == s.sizes[x.tid])
  {
    hide Key, Pack, Wrap;
    if !x.op.Record? && !x.op.Delete? {
      AllocsUnchanged(s, x.tid, x.op);
    }
  }

  lemma {:induction false} RunKnown(steps: seq<Step>)
    ensures SizesKnown(steps, Run(START, steps).sizes) && AllocsKnown(steps, Run(START, steps).allocs)
    decreases |steps|
  {
    hide Do, SizesKnown, AllocsKnown;
    if steps == [] {
      NothingKnown();
    } else {
      var before, x := steps[..|steps| - 1], steps[|steps| - 1];
      assert steps == before + [x];
      RunKnown(before);
      RunConcat(START, before, [x]);
      assert Run(Run(START, before), [x]) == Do(Run(START, before), x.tid, x.op) by {
        assert [x][1..] == [];
      }
      SizesStayKnown(before, Run(START, before), x);
      AllocsStayKnown(before, Run(START, before), x);
    }
  }

  lemma NothingKnown()
    ensures SizesKnown([], START.sizes) && AllocsKnown([], START.allocs)
  {
  }

  /** In every run every live allocation was recorded by a thread, at an address that
      marks no failure, with the time and stack of that record and the size of the
      thread's last entry before it. */
  lemma LiveWasRecorded(steps: seq<Step>, addr: u64) returns (j: nat, k: nat)
    requires addr in Run(START, steps).allocs
    ensures addr != 0 && addr != 0xffff_ffff_ffff_ffff
    ensures j < k < |steps| && steps[j].tid == steps[k].tid
    ensures steps[j].op == Enter(Run(START, steps).allocs[addr].size)
    ensures forall i :: j < i < k && steps[i].tid == steps[j].tid ==> !steps[i].op.Enter?
    ensures var info := Run(START, steps).allocs[addr];
            steps[k].op == Record(addr, info.timestamp, info.stackId)
  {
    hide Run;
    RunKnown(steps);
    var info := Run(START, steps).allocs[addr];
    k :| IsSource(steps, addr, info, k);
    j :| LastEnter(steps[..k], steps[k].tid, info.size, j);
  }

  /** What the two steps store: an entry replaces the size its thread has, if it has one
      or there is room; a record moves it to the address, unless that marks a failure. */
  lemma StoresOutcome(s: State, tid: u32, size: u64, addr: u64, now: u64, stackId: i32)
    ensures Do(s, tid, Enter(size))
         == if tid in s.sizes || |s.sizes| < 10240 then s.(sizes := s.sizes[tid := size]) else s
    ensures tid !in s.pending && tid in s.sizes ==>
              var t := Do(s, tid, Record(addr, now, stackId));
              && t.sizes == s.sizes - {tid} && t.combined == s.combined
              && t.allocs == if addr == 0 || addr == 0xffff_ffff_ffff_ffff then s.allocs
                             else if addr !in s.allocs && |s.allocs| >= 1000000 then s.allocs
                             else s.allocs[addr := Info(s.sizes[tid], now, stackId)]
  {
  }

  /** The summary key: the stack id with its sign extended to 64 bits. */
  lemma KeyIsSignExtended(stackId: i32)
    ensures Key(stackId) == if stackId >= 0 then stackId else stackId + 0x1_0000_0000_0000_0000
  {
  }

  // ---------------------------------------------------------------------
  // Idle states

  /** Over every interleaving of guarded steps, once no handler is under way every
      summary is the packed sum over its live allocations modulo 2^64. */
  lemma SummariesAgreeWhenIdle(steps: seq<Step>, key: u64)
    requires Guarded(START, steps) && Run(START, steps).pending == map[]
    ensures Summary(Run(START, steps), key) == Wrap(Live(Run(START, steps), key))
  {
    hide Total, Guarded, Run;
    StartIsLawful();
    GuardedRunsKeepLaw(START, steps);
    TotalEmpty(Run(START, steps).pending, OwedWeight(key));
    assert Balanced(Run(START, steps), key);
  }

  // ---------------------------------------------------------------------
  // The handlers

  /** The maps the handlers share. */
  class Maps {
    var sizes: map<u32, u64>
    var allocs: map<u64, Info>
    var combined: map<u64, u64>

    constructor ()
      ensures View(map[]) == START
    {
      sizes, allocs, combined := map[], map[], map[];
    }

    /** The maps with the handlers under way in other threads. */
    ghost function View(pending: map<u32, Pending>): State
      reads this
    {
      State(sizes, allocs, combined, pending)
    }

    /** `gen_alloc_enter`: sampling has already let the call through or not. */
    method GenAllocEnter(tid: u32, size: u64, minSize: u64, maxSize: u64, sampled: bool)
      modifies this
      ensures forall p ::
                View(p) == if size < minSize || size > maxSize || !sampled then old(View(p))
                           else Do(old(View(p)), tid, Enter(size))
    {
      if size < minSize || size > maxSize {
        return;
      }
      if !sampled {
        return;
      }
      if tid in sizes || |sizes| < SIZES_MAX {
        sizes := sizes[tid := size];
      }
    }

    /** `update_statistics_add`. */
    method UpdateStatisticsAdd(stackId: i32, size: u64)
      modifies this`combined
      ensures var key := Key(stackId);
              var word := if key in old(combined) then old(combined)[key] else 0;
              combined == Put(old(combined), key, Wrap(word + Pack(size)), COMBINED_MAX)
    {
      var key := Key(stackId);
      if key !in combined {
        if |combined| >= COMBINED_MAX {
          return;
        }
        combined := combined[key := 0];
      }
      combined := combined[key := Wrap(combined[key] + Pack(size))];
    }

    /** `update_statistics_del`. */
    method UpdateStatisticsDel(stackId: i32, size: u64)
      modifies this`combined
      ensures var key := Key(stackId);
              combined == if key in old(combined) then old(combined)[key := Wrap(old(combined)[key] - Pack(size))]
                          else old(combined)
    {
      var key := Key(stackId);
      if key in combined {
        combined := combined[key := Wrap(combined[key] - Pack(size))];
      }
    }

    /** The update of the map of live allocations. */
    method RecordAddress(address: u64, info: Info)
      modifies this`allocs
      ensures allocs == Put(old(allocs), address, info, ALLOCS_MAX)
    {
      if address in allocs || |allocs| < ALLOCS_MAX {
        allocs := allocs[address := info];
      }
    }

    /** `gen_alloc_exit2`, with nothing interleaved. */
    method GenAllocExit2(tid: u32, address: u64, now: u64, stackId: i32)
      modifies this
      ensures forall p :: View(p) == Exited(old(View(p)), tid, address, now, stackId)
    {
      hide Key, Put;
      if tid !in sizes {
        return;
      }
      var info := Info(sizes[tid], now, stackId);
      sizes := sizes - {tid};
      if address != 0 && address != U64_MAX {
        RecordAddress(address, info);
        UpdateStatisticsAdd(info.stackId, info.size);
      }
    }

    /** `gen_free_enter`, with nothing interleaved. */
    method GenFreeEnter(address: u64)
      modifies this
      ensures forall p :: View(p) == Freed(old(View(p)), address)
    {
      if address in allocs {
        var info := allocs[address];
        allocs := allocs - {address};
        UpdateStatisticsDel(info.stackId, info.size);
      }
    }
  }

  /** The state after a whole exit handler. */
  function Exited(s: State, tid: u32, address: u64, now: u64, stackId: i32): State {
    if tid !in s.sizes then s
    else if NoAddress(address) then s.(sizes := s.sizes - {tid})
    else
      s.(sizes := s.sizes - {tid},
         allocs := Put(s.allocs, address, Info(s.sizes[tid], now, stackId), ALLOCS_MAX),
         combined := Put(s.combined, Key(stackId), Wrap(Summary(s, Key(stackId)) + Pack(s.sizes[tid])), COMBINED_MAX))
  }

  /** The state after a whole free handler. */
  function Freed(s: State, address: u64): State {
    if address !in s.allocs then s
    else
      var info := s.allocs[address];
      var key := Key(info.stackId);
      s.(allocs := s.allocs - {address},
         combined := if key in s.combined then s.combined[key := Wrap(s.combined[key] - Pack(info.size))]
                     else s.combined)
  }

  /** A handler run alone is a run of its steps: record, find the entry, add. */
  lemma ExitIsRun(s: State, tid: u32, address: u64, now: u64, stackId: i32)
    requires tid !in s.pending
    ensures Run(s, [Step(tid, Record(address, now, stackId)), Step(tid, Reserve), Step(tid, Add)])
         == Exited(s, tid, address, now, stackId)
  {
    hide Recorded, Reserved, Added, Pack, Key, Wrap, Run, Put;
    RunThree(s, Step(tid, Record(address, now, stackId)), Step(tid, Reserve), Step(tid, Add));
    RecordAlone(s, tid, address, now, stackId);
    var s1 := Recorded(s, tid, address, now, stackId);
    if tid in s1.pending {
      CountedAfter(s1, s.pending, tid, Info(s.sizes[tid], now, stackId));
    }
  }

  lemma RecordAlone(s: State, tid: u32, address: u64, now: u64, stackId: i32)
    requires tid !in s.pending
    ensures Recorded(s, tid, address, now, stackId)
         == if tid !in s.sizes then s
            else if NoAddress(address) then s.(sizes := s.sizes - {tid})
            else
              var info := Info(s.sizes[tid], now, stackId);
              State(s.sizes - {tid}, Put(s.allocs, address, info, ALLOCS_MAX), s.combined,
                    s.pending[tid := Adding(info)])
  {
  }

  lemma AddedAlone(s: State, others: map<u32, Pending>, tid: u32, info: Info)
    requires tid !in others && s.pending == others[tid := Counting(info)] && Key(info.stackId) in s.combined
    ensures IsCounting(s, tid)
    ensures var key := Key(info.stackId);
            Added(s, tid)
            == State(s.sizes, s.allocs, s.combined[key := Wrap(s.combined[key] + Pack(info.size))], others)
  {
    hide Pack, Key, Wrap;
    PutRemove(others, tid, Counting(info), Counting(info));
  }

  lemma ReservedAlone(s: State, others: map<u32, Pending>, tid: u32, info: Info)
    requires tid !in others && s.pending == others[tid := Adding(info)]
    ensures IsAdding(s, tid)
    ensures var key := Key(info.stackId);
            Reserved(s, tid)
            == if key in s.combined then State(s.sizes, s.allocs, s.combined, others[tid := Counting(info)])
               else if |s.combined| < COMBINED_MAX then
                 State(s.sizes, s.allocs, s.combined[key := 0], others[tid := Counting(info)])
               else State(s.sizes, s.allocs, s.combined, others)
  {
    hide Key;
    PutRemove(others, tid, Adding(info), Counting(info));
    PutTwice(others, tid, Adding(info), Counting(info));
  }

  /** The two steps of `update_statistics_add`. */
  lemma CountedAfter(s: State, others: map<u32, Pending>, tid: u32, info: Info)
    requires tid !in others && s.pending == others[tid := Adding(info)]
    ensures IsAdding(s, tid)
    ensures Do(Do(s, tid, Reserve), tid, Add)
         == State(s.sizes, s.allocs,
                  Put(s.combined, Key(info.stackId), Wrap(Summary(s, Key(info.stackId)) + Pack(info.size)),
                      COMBINED_MAX),
                  others)
  {
    hide Pack, Key, Wrap, Reserved, Added;
    var key := Key(info.stackId);
    ReservedAlone(s, others, tid, info);
    var s2 := Reserved(s, tid);
    if key in s.combined || |s.combined| < COMBINED_MAX {
      AddedAlone(s2, others, tid, info);
      PutTwice(s.combined, key, 0, Wrap(0 + Pack(info.size)));
    }
  }

  lemma PutTwice<K, V>(m: map<K, V>, k: K, a: V, b: V)
    ensures m[k := a][k := b] == m[k := b]
  {
  }

  /** Likewise: look up, delete, subtract. */
  lemma FreeIsRun(s: State, tid: u32, address: u64)
    requires tid !in s.pending
    ensures Run(s, [Step(tid, Lookup(address)), Step(tid, Delete), Step(tid, Subtract)]) == Freed(s, address)
  {
    hide Pack, Key, Wrap, Run;
    RunThree(s, Step(tid, Lookup(address)), Step(tid, Delete), Step(tid, Subtract));
    if address in s.allocs {
      var info := s.allocs[address];
      PutRemove(s.pending, tid, Freeing(address, info), Subtracting(info));
    }
  }

  lemma RunThree(s: State, a: Step, b: Step, c: Step)
    ensures Run(s, [a, b, c]) == Do(Do(Do(s, a.tid, a.op), b.tid, b.op), c.tid, c.op)
  {
    hide Do;
    var s1 := Do(s, a.tid, a.op);
    var s2 := Do(s1, b.tid, b.op);
    assert [a, b, c][1..] == [b, c] && [b, c][1..] == [c] && [c][1..] == [];
    assert Run(s, [a, b, c]) == Run(s1, [b, c]);
    assert Run(s1, [b, c]) == Run(s2, [c]);
  }
}
