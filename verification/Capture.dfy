// `dwunw_capture` of src/unwinder/dwunw_unwind.c: one stack walk through one
// module, with the module held in the cache for its duration.
//
// Files, the architecture's register conventions and the outcome of attaching to
// the target are parameters. Pointers are never null here.
module Capture {
  import opened Machine
  import opened CfiSection
  import opened CfiTables
  import opened CfiEval
  import opened ModuleCache
  import CacheLru

  const FLAG_PARTIAL: u32 := 1

  /** `struct dwunw_frame_window`. */
  datatype Window = Window(cfa: u64, ra: u64)

  /** The operations of an architecture, one that is missing answering NotImplemented;
      without support for the register set there are none. */
  datatype Arch = Arch(supported: bool, computeCfa: Registers -> Result<u64>, openFrame: Registers -> Result<Window>,
                       readReturn: Registers -> Result<u64>, normalize: Registers -> Registers)

  /** The value of an operation, or `other` where it is not implemented. */
  function OrElse(r: Result<u64>, other: u64): Result<u64> {
    if r == Fail(NotImplemented) then Pass(other) else r
  }

  /** The window of the root frame. */
  function WindowOf(regs: Registers, arch: Arch): Result<Window> {
    if !arch.supported then Fail(UnsupportedArch)
    else
      var cfa :- OrElse(arch.computeCfa(regs), regs.sp);
      var whole := arch.openFrame(regs);
      if whole != Fail(NotImplemented) then whole
      else
        var ra :- OrElse(arch.readReturn(regs), regs.pc);
        Pass(Window(cfa, ra))
  }

  /** Clean-up leaves the program counter, stack pointer and registers alone. */
  ghost predicate KeepsValues(arch: Arch) {
    forall r :: var n := arch.normalize(r); n.pc == r.pc && n.sp == r.sp && n.regs == r.regs
  }

  datatype Request = Request(modulePath: string, regs: Registers, maxFrames: nat, pid: int)

  /** Frame 0: the registers of the request, marked partial. */
  function RootFrame(request: Request, window: Window): Frame {
    Frame(request.regs.pc, request.regs.sp, window.cfa, window.ra, FLAG_PARTIAL, Stored(request.modulePath))
  }

  /** A later frame, from the caller's registers. */
  function CallerFrame(caller: Registers, path: string): Frame {
    Frame(caller.pc, caller.sp, caller.sp, caller.pc, 0, Stored(path))
  }

  /** One unwinding step from `regs`, when some FDE covers its pc. */
  function StepFrom(m: Module, regs: Registers, reader: Reader): Result<Registers>
    requires Covering(m.fdes, regs.pc).Some?
  {
    var fde := m.fdes[Covering(m.fdes, regs.pc).value];
    Unwind(m.cies[fde.cie], fde, regs.pc, regs, reader)
  }

  /** The frames found from `regs` on, how the walk ended, and the registers it
      ended at. */
  datatype Trail = Trail(frames: seq<Frame>, status: Status, last: Registers)

  function Follow(m: Module, regs: Registers, reader: Reader, arch: Arch, budget: nat, path: string): (t: Trail)
    ensures |t.frames| <= budget
    decreases budget
  {
    if budget == 0 || Covering(m.fdes, regs.pc).None? then Trail([], Ok, regs)
    else
      match StepFrom(m, regs, reader)
      case Fail(st) => Trail([], st, regs)
      case Pass(caller) =>
        var rest := Follow(m, arch.normalize(caller), reader, arch, budget - 1, path);
        rest.(frames := [CallerFrame(caller, path)] + rest.frames)
  }

  // ---------------------------------------------------------------------
  // What a trail is

  /** `states` are the register sets a walk passes through: each step finds an FDE,
      evaluates it and cleans up, and frame k shows the caller of states[k]. */
  ghost predicate IsWalk(m: Module, reader: Reader, arch: Arch, path: string, states: seq<Registers>,
                         frames: seq<Frame>)
  {
    && |states| == |frames| + 1
    && forall k :: 0 <= k < |frames| ==>
         && Covering(m.fdes, states[k].pc).Some?
         && StepFrom(m, states[k], reader).Pass?
         && states[k + 1] == arch.normalize(StepFrom(m, states[k], reader).value)
         && frames[k] == CallerFrame(StepFrom(m, states[k], reader).value, path)
  }

  /** A walk within a budget that cannot go on from `last`: the budget is spent, or
      no FDE covers the pc, or evaluation fails with `status`. */
  ghost predicate CannotContinue(m: Module, reader: Reader, last: Registers, spent: bool, status: Status) {
    if spent || Covering(m.fdes, last.pc).None? then status == Ok
    else status != Ok && StepFrom(m, last, reader) == Fail(status)
  }

  lemma {:induction false} FollowIsMaximalWalk(m: Module, regs: Registers, reader: Reader, arch: Arch, budget: nat,
                                              path: string) returns (states: seq<Registers>)
    ensures var t := Follow(m, regs, reader, arch, budget, path);
            && IsWalk(m, reader, arch, path, states, t.frames)
            && states[0] == regs && states[|t.frames|] == t.last
            && |t.frames| <= budget
            && CannotContinue(m, reader, t.last, |t.frames| == budget, t.status)
    decreases budget
  {
    hide StepFrom, CallerFrame;
    if budget == 0 || Covering(m.fdes, regs.pc).None? || StepFrom(m, regs, reader).Fail? {
      states := [regs];
    } else {
      var caller := StepFrom(m, regs, reader).value;
      var next := arch.normalize(caller);
      var rest := Follow(m, next, reader, arch, budget - 1, path);
      var later := FollowIsMaximalWalk(m, next, reader, arch, budget - 1, path);
      states := [regs] + later;
      WalkCons(m, reader, arch, path, regs, later, rest.frames);
    }
  }

  lemma WalkCons(m: Module, reader: Reader, arch: Arch, path: string, regs: Registers, later: seq<Registers>,
                 frames: seq<Frame>)
    requires IsWalk(m, reader, arch, path, later, frames)
    requires Covering(m.fdes, regs.pc).Some? && StepFrom(m, regs, reader).Pass?
    requires later[0] == arch.normalize(StepFrom(m, regs, reader).value)
    ensures IsWalk(m, reader, arch, path, [regs] + later, [CallerFrame(StepFrom(m, regs, reader).value, path)] + frames)
  {
    hide StepFrom, CallerFrame, Covering;
    var states, all := [regs] + later, [CallerFrame(StepFrom(m, regs, reader).value, path)] + frames;
    assert forall k :: 1 <= k < |states| ==> states[k] == later[k - 1];
    assert forall k :: 1 <= k < |all| ==> all[k] == frames[k - 1];
  }

  /** At every step the cursor's pc is the pc of the last frame written, and no
      frame after the root is partial. */
  lemma WalkFrames(m: Module, reader: Reader, arch: Arch, path: string, states: seq<Registers>, frames: seq<Frame>,
                   k: nat)
    requires KeepsValues(arch) && IsWalk(m, reader, arch, path, states, frames) && k < |frames|
    ensures states[k + 1].pc == frames[k].pc && states[k + 1].sp == frames[k].sp
    ensures frames[k].flags == 0 && frames[k].ra == frames[k].pc && frames[k].cfa == frames[k].sp
  {
    hide StepFrom;
    var caller := StepFrom(m, states[k], reader).value;
    assert arch.normalize(caller).pc == caller.pc;
  }

  // ---------------------------------------------------------------------
  // The result of a capture

  /** Does evaluating from `last` get past the return address and then meet a slot it
      cannot read? */
  ghost predicate LateFaultAt(m: Module, last: Registers, reader: Reader) {
    var found := Covering(m.fdes, last.pc);
    found.Some? && LateFault(m.cies[m.fdes[found.value].cie], m.fdes[found.value], last.pc, last.regs, reader)
  }

  /** What the frame array holds just past the last frame. */
  ghost function PastEnd(m: Module, status: Status, last: Registers, reader: Reader, before: Frame): Frame {
    if status == Ok || !LateFaultAt(m, last, reader) then before
    else
      var fde := m.fdes[Covering(m.fdes, last.pc).value];
      FrameAfter(m.cies[fde.cie], fde, last.pc, last.regs, reader, before)
  }

  /** A failed evaluation leaves its slot as `PastEnd` says. */
  lemma FailedStepFrame(m: Module, last: Registers, reader: Reader, before: Frame)
    requires Covering(m.fdes, last.pc).Some? && StepFrom(m, last, reader).Fail?
    ensures var fde := m.fdes[Covering(m.fdes, last.pc).value];
            FrameAfter(m.cies[fde.cie], fde, last.pc, last.regs, reader, before)
            == PastEnd(m, StepFrom(m, last, reader).status, last, reader, before)
  {
    hide Unwind, FrameAfter, LateFault;
    var fde := m.fdes[Covering(m.fdes, last.pc).value];
    FailedEvalWritesFrameIff(m.cies[fde.cie], fde, last.pc, last, reader);
  }

  /** The walk overwrites the slot past its last frame exactly when it stops within its
      budget at registers whose evaluation finds the return address and then meets a
      slot that cannot be read. */
  lemma WalkOverwritesIff(m: Module, regs: Registers, reader: Reader, arch: Arch, budget: nat, path: string)
    ensures var t := Follow(m, regs, reader, arch, budget, path);
            (exists before :: PastEnd(m, t.status, t.last, reader, before) != before)
            <==> |t.frames| < budget && LateFaultAt(m, t.last, reader)
  {
    hide Unwind, FrameAfter, LateFault, Follow;
    var t := Follow(m, regs, reader, arch, budget, path);
    var states := FollowIsMaximalWalk(m, regs, reader, arch, budget, path);
    if LateFaultAt(m, t.last, reader) {
      var fde := m.fdes[Covering(m.fdes, t.last.pc).value];
      FailedEvalWritesFrameIff(m.cies[fde.cie], fde, t.last.pc, t.last, reader);
      if |t.frames| < budget {
        var before :| FrameAfter(m.cies[fde.cie], fde, t.last.pc, t.last.regs, reader, before) != before;
        assert PastEnd(m, t.status, t.last, reader, before) != before;
      }
    }
  }

  /** Does the capture try to attach to its target? */
  predicate Attaches(request: Request, readerReady: bool) {
    readerReady && request.pid > 0 && request.maxFrames > 1
  }

  /** The walk beyond the root frame; without a reader there is none. */
  function WalkOf(request: Request, m: Module, reader: Option<Reader>, arch: Arch): Trail
    requires request.maxFrames > 0
  {
    if reader.None? then Trail([], Ok, request.regs)
    else Follow(m, request.regs, reader.value, arch, request.maxFrames - 1, request.modulePath)
  }

  /** `struct dwunw_context`. */
  class Context {
    const cache: SlotTable
    var cacheReady: bool
    var readerReady: bool

    ghost predicate Valid()
      reads this, cache
    {
      cache.Valid()
    }

    /** `dwunw_init`. */
    constructor ()
      ensures Valid() && cacheReady && readerReady
      ensures fresh(cache) && fresh(cache.entries) && cache.View() == Fresh()
    {
      cache := new SlotTable();
      cacheReady, readerReady := true, true;
    }
  }

  /** The frame evaluation writes, in terms of the caller it recovers. */
  lemma WrittenFrame(cie: CieRecord, fde: FdeRecord, regs: Registers, reader: Reader, before: Frame)
    requires cie.returnReg < 32 && Unwind(cie, fde, regs.pc, regs, reader).Pass?
    ensures var frame, caller := FrameAfter(cie, fde, regs.pc, regs.regs, reader, before),
                                 Unwind(cie, fde, regs.pc, regs, reader).value;
            frame == Frame(caller.pc, caller.sp, caller.sp, caller.pc, 0, before.modulePath)
  {
    hide RowAt, CfaOf, FirstFault, FaultIndex, RestoredUpTo;
  }

  /** One pass of the loop: None when no FDE covers the cursor. */
  method StepCaller(m: Module, reader: Reader, cursor: Regset, path: string, frames: array<Frame>, k: nat)
    returns (r: Option<Status>)
    requires cursor.Valid() && k < frames.Length
    modifies cursor, cursor.regs, frames
    ensures cursor.Valid()
    ensures forall j :: 0 <= j < frames.Length && j != k ==> frames[j] == old(frames[j])
    ensures r.None? ==> Covering(m.fdes, old(cursor.pc)).None? && frames[k] == old(frames[k])
    ensures r.Some? ==> Covering(m.fdes, old(cursor.pc)).Some?
    ensures r == Some(Ok) ==>
              && StepFrom(m, old(cursor.View()), reader) == Pass(cursor.View())
              && frames[k] == CallerFrame(cursor.View(), path)
    ensures r.Some? && r.value != Ok ==>
              && StepFrom(m, old(cursor.View()), reader) == Fail(r.value)
              && frames[k] == PastEnd(m, r.value, old(cursor.View()), reader, old(frames[k]))
  {
    hide Unwind, FrameAfter, PastEnd;
    ghost var regs, before := cursor.View(), frames[k];
    var found := FindFde(m.fdes, cursor.pc);
    if found.None? {
      return None;
    }
    var fde := m.fdes[found.value];
    var st := EvalFrame(m.cies[fde.cie], fde, cursor.pc, cursor, reader, frames, k);
    if st == Ok {
      WrittenFrame(m.cies[fde.cie], fde, regs, reader, before);
      frames[k] := frames[k].(flags := frames[k].flags / 2 * 2, modulePath := Stored(path));
    } else {
      FailedStepFrame(m, regs, reader, before);
    }
    return Some(st);
  }

  /** The architecture's clean-up of the cursor registers, in place. */
  method Normalize(cursor: Regset, arch: Arch)
    requires cursor.Valid()
    modifies cursor, cursor.regs
    ensures cursor.Valid() && cursor.View() == arch.normalize(old(cursor.View()))
  {
    var now := Registers(cursor.arch, cursor.version, cursor.flags, cursor.sp, cursor.pc, cursor.regs[..]);
    var n := arch.normalize(now);
    cursor.arch, cursor.version, cursor.flags, cursor.sp, cursor.pc := n.arch, n.version, n.flags, n.sp, n.pc;
    forall i | 0 <= i < 32 {
      cursor.regs[i] := n.regs[i];
    }
    assert cursor.regs[..] == n.regs;
  }

  /** A trail with frames already found put in front. */
  function After(found: seq<Frame>, t: Trail): Trail {
    t.(frames := found + t.frames)
  }

  /** One unfolding of a trail, behind the frames already found. */
  lemma FollowUnfolds(m: Module, regs: Registers, reader: Reader, arch: Arch, budget: nat, path: string,
                      found: seq<Frame>)
    requires budget > 0
    ensures After(found, Follow(m, regs, reader, arch, budget, path))
         == if Covering(m.fdes, regs.pc).None? then Trail(found, Ok, regs)
            else
              match StepFrom(m, regs, reader)
              case Fail(st) => Trail(found, st, regs)
              case Pass(caller) =>
                After(found + [CallerFrame(caller, path)],
                      Follow(m, arch.normalize(caller), reader, arch, budget - 1, path))
  {
    hide StepFrom, CallerFrame;
    if Covering(m.fdes, regs.pc).Some? && StepFrom(m, regs, reader).Pass? {
      var caller := StepFrom(m, regs, reader).value;
      var rest := Follow(m, arch.normalize(caller), reader, arch, budget - 1, path).frames;
      assert found + ([CallerFrame(caller, path)] + rest) == found + [CallerFrame(caller, path)] + rest;
    }
  }

  /** One pass of the loop and its clean-up, in terms of the whole trail: it goes on
      behind one more frame, or ends here. */
  method ExtendTrail(m: Module, reader: Reader, arch: Arch, cursor: Regset, path: string, frames: array<Frame>, k: nat,
                     ghost budget: nat, ghost found: seq<Frame>)
    returns (r: Option<Status>)
    requires cursor.Valid() && k < frames.Length && budget > 0
    modifies cursor, cursor.regs, frames
    ensures cursor.Valid()
    ensures forall j :: 0 <= j < frames.Length && j != k ==> frames[j] == old(frames[j])
    ensures var t, now := After(found, Follow(m, old(cursor.View()), reader, arch, budget, path)), old(cursor.View());
            if r == Some(Ok) then
              t == After(found + [frames[k]], Follow(m, cursor.View(), reader, arch, budget - 1, path))
            else
              var st := if r.None? then Ok else r.value;
              t == Trail(found, st, now) && frames[k] == PastEnd(m, st, now, reader, old(frames[k]))
  {
    hide StepFrom, CallerFrame, PastEnd, Follow, Covering, After;
    ghost var now := cursor.View();
    FollowUnfolds(m, now, reader, arch, budget, path, found);
    NothingPastEnd(m, now, reader);
    r := StepCaller(m, reader, cursor, path, frames, k);
    if r == Some(Ok) {
      Normalize(cursor, arch);
    }
  }

  /** The loop over callers, from frame 1 on. */
  method WalkCallers(request: Request, m: Module, reader: Reader, arch: Arch, frames: array<Frame>)
    returns (st: Status, produced: nat)
    requires 1 <= request.maxFrames <= frames.Length
    modifies frames
    ensures var t := Follow(m, request.regs, reader, arch, request.maxFrames - 1, request.modulePath);
            && st == t.status
            && produced == 1 + |t.frames| <= request.maxFrames
            && frames[0] == old(frames[0])
            && frames[1..produced] == t.frames
            && (produced < frames.Length ==>
                  frames[produced] == PastEnd(m, t.status, t.last, reader, old(frames[produced])))
            && forall j :: produced < j < frames.Length ==> frames[j] == old(frames[j])
  {
    hide PastEnd, Follow;
    var cursor := new Regset(request.regs);
    produced := 1;
    ghost var whole := Follow(m, request.regs, reader, arch, request.maxFrames - 1, request.modulePath);
    while produced < request.maxFrames
      invariant 1 <= produced <= request.maxFrames && cursor.Valid() && fresh(cursor) && fresh(cursor.regs)
      invariant frames[0] == old(frames[0])
      invariant forall j :: produced <= j < frames.Length ==> frames[j] == old(frames[j])
      invariant whole == After(frames[1..produced], Follow(m, cursor.View(), reader, arch, request.maxFrames - produced,
                                                           request.modulePath))
    {
      ghost var written := frames[1..produced];
      var r := ExtendTrail(m, reader, arch, cursor, request.modulePath, frames, produced,
                           request.maxFrames - produced, written);
      assert frames[1..produced] == written;
      if r != Some(Ok) {
        return if r.None? then Ok else r.value, produced;
      }
      assert frames[1..produced + 1] == written + [frames[produced]];
      produced := produced + 1;
    }
    SpentTrail(m, cursor.View(), reader, arch, request.modulePath, frames[1..produced]);
    NothingPastEnd(m, cursor.View(), reader);
    st := Ok;
  }

  lemma SpentTrail(m: Module, regs: Registers, reader: Reader, arch: Arch, path: string, found: seq<Frame>)
    ensures After(found, Follow(m, regs, reader, arch, 0, path)) == Trail(found, Ok, regs)
  {
  }

  lemma NothingPastEnd(m: Module, last: Registers, reader: Reader)
    ensures forall before :: PastEnd(m, Ok, last, reader, before) == before
  {
  }

  /** What a capture returns and leaves in the caller's frame array. */
  datatype Captured = Captured(status: Status, written: nat, frames: seq<Frame>)

  /** The caller's array, which held `before`, with the root frame and a trail in it. */
  ghost function Filled(m: Module, root: Frame, t: Trail, reader: Option<Reader>, before: seq<Frame>): seq<Frame>
    requires 1 + |t.frames| <= |before|
  {
    var n := 1 + |t.frames|;
    [root] + t.frames
    + (if n == |before| || reader.None? then before[n..]
       else [PastEnd(m, t.status, t.last, reader.value, before[n])] + before[n + 1..])
  }

  /** The result once the module is held. */
  ghost function CaptureIn(m: Module, request: Request, arch: Arch, reader: Option<Reader>, readerStatus: Status,
                           before: seq<Frame>): Captured
    requires 0 < request.maxFrames <= |before|
  {
    match WindowOf(request.regs, arch)
    case Fail(st) => Captured(st, 0, before)
    case Pass(window) =>
      var t := WalkOf(request, m, reader, arch);
      Captured(if t.status == Ok then readerStatus else t.status, 1 + |t.frames|,
               Filled(m, RootFrame(request, window), t, reader, before))
  }

  /** The reader a capture works with, and the failure to attach it. */
  function ReaderOf(request: Request, readerReady: bool, attach: Result<Reader>): Option<Reader> {
    if Attaches(request, readerReady) && attach.Pass? then Some(attach.value) else None
  }

  function ReaderStatus(request: Request, readerReady: bool, attach: Result<Reader>): Status {
    if Attaches(request, readerReady) && attach.Fail? then attach.status else Ok
  }

  /** The result of a capture that finds the cache as `c`. */
  ghost function CaptureResult(c: Cache, cacheReady: bool, readerReady: bool, request: Request,
                               files: string -> Result<Module>, arch: Arch, attach: Result<Reader>, before: seq<Frame>)
    : Captured
    requires request.maxFrames <= |before|
  {
    if request.maxFrames == 0 || !cacheReady then Captured(InvalidArg, 0, before)
    else
      var a := Acquire(c, request.modulePath, files(request.modulePath));
      match a.handle
      case Fail(st) => Captured(st, 0, before)
      case Pass(i) =>
        AcquiredSlot(c, request.modulePath, files(request.modulePath));
        CaptureIn(a.cache.slots[i].content, request, arch, ReaderOf(request, readerReady, attach),
                  ReaderStatus(request, readerReady, attach), before)
  }

  lemma FilledIs(m: Module, root: Frame, t: Trail, reader: Option<Reader>, before: seq<Frame>, now: seq<Frame>)
    requires var n := 1 + |t.frames|;
             && n <= |before| == |now|
             && now[0] == root && now[1..n] == t.frames
             && (n < |before| ==> now[n] == if reader.None? then before[n]
                                            else PastEnd(m, t.status, t.last, reader.value, before[n]))
             && forall j :: n < j < |before| ==> now[j] == before[j]
    ensures now == Filled(m, root, t, reader, before)
  {
    hide PastEnd;
    var n := 1 + |t.frames|;
    assert now == [now[0]] + now[1..n] + now[n..];
    if n < |before| {
      assert now[n..] == [now[n]] + now[n + 1..] && now[n + 1..] == before[n + 1..];
      assert before[n..] == [before[n]] + before[n + 1..];
    }
  }

  /** The window part of `prepare_root_frame`. */
  method PrepareRoot(regs: Registers, arch: Arch) returns (r: Result<Window>)
    ensures r == WindowOf(regs, arch)
  {
    if !arch.supported {
      return Fail(UnsupportedArch);
    }
    var cfa := arch.computeCfa(regs);
    if cfa == Fail(NotImplemented) {
      cfa := Pass(regs.sp);
    } else if cfa.Fail? {
      return Fail(cfa.status);
    }
    r := arch.openFrame(regs);
    if r == Fail(NotImplemented) {
      var ra := arch.readReturn(regs);
      if ra == Fail(NotImplemented) {
        ra := Pass(regs.pc);
      } else if ra.Fail? {
        return Fail(ra.status);
      }
      r := Pass(Window(cfa.value, ra.value));
    }
  }

  /** `dwunw_capture` between the acquire and the release of its module. */
  method CaptureHeld(request: Request, m: Module, reader: Option<Reader>, arch: Arch, frames: array<Frame>)
    returns (st: Status, written: nat)
    requires 0 < request.maxFrames <= frames.Length
    modifies frames
    ensures forall readerStatus :: CaptureIn(m, request, arch, reader, readerStatus, old(frames[..]))
                                == Captured(if st == Ok then readerStatus else st, written, frames[..])
  {
    hide Follow, PastEnd, Filled;
    var window := PrepareRoot(request.regs, arch);
    match window {
      case Fail(e) =>
        return e, 0;
      case Pass(w) =>
        st, written := Ok, 1;
        frames[0] := RootFrame(request, w);
        if request.maxFrames > 1 && |m.fdes| > 0 && reader.Some? {
          st, written := WalkCallers(request, m, reader.value, arch, frames);
        } else {
          NothingToFollow(request, m, reader, arch);
        }
        FilledIs(m, RootFrame(request, w), WalkOf(request, m, reader, arch), reader, old(frames[..]), frames[..]);
    }
  }

  /** `dwunw_capture`. */
  method CaptureFrames(ctx: Context, request: Request, frames: array<Frame>, files: string -> Result<Module>,
                       arch: Arch, attach: Result<Reader>)
    returns (st: Status, written: nat)
    requires ctx.Valid() && request.maxFrames <= frames.Length
    modifies ctx.cache, ctx.cache.entries, frames
    ensures ctx.Valid()
    ensures ctx.cache.View()
         == if request.maxFrames == 0 || !ctx.cacheReady then old(ctx.cache.View())
            else CacheLru.Capture(old(ctx.cache.View()), request.modulePath, files(request.modulePath))
    ensures Captured(st, written, frames[..])
         == CaptureResult(old(ctx.cache.View()), ctx.cacheReady, ctx.readerReady, request, files, arch, attach,
                          old(frames[..]))
  {
    hide CaptureIn, Acquire, Release;
    if request.maxFrames == 0 || !ctx.cacheReady {
      return InvalidArg, 0;
    }
    var reader: Option<Reader>, readerStatus := None, Ok;
    if ctx.readerReady && request.pid > 0 && request.maxFrames > 1 {
      match attach
      case Pass(r) => reader := Some(r);
      case Fail(e) => readerStatus := e;
    }
    assert reader == ReaderOf(request, ctx.readerReady, attach);
    assert readerStatus == ReaderStatus(request, ctx.readerReady, attach);
    hide ReaderOf, ReaderStatus;
    var handle := ctx.cache.AcquireModule(request.modulePath, files);
    if handle.Fail? {
      return handle.status, 0;
    }
    AcquiredSlot(old(ctx.cache.View()), request.modulePath, files(request.modulePath));
    var m := ctx.cache.entries[handle.value].content;
    assert frames[..] == old(frames[..]);
    st, written := CaptureHeld(request, m, reader, arch, frames);
    ghost var result := CaptureIn(m, request, arch, reader, readerStatus, old(frames[..]));
    assert result == Captured(if st == Ok then readerStatus else st, written, frames[..]);
    assert result == CaptureResult(old(ctx.cache.View()), ctx.cacheReady, ctx.readerReady, request, files, arch, attach,
                                   old(frames[..]));
    hide CaptureResult;
    var released := ctx.cache.ReleaseModule(handle.value);
    if st == Ok && readerStatus != Ok {
      st := readerStatus;
    }
  }

  lemma AcquiredSlot(c: Cache, path: string, load: Result<Module>)
    ensures var a := Acquire(c, path, load);
            a.handle.Pass? ==> a.handle.value < CAPACITY
  {
  }

  lemma NothingToFollow(request: Request, m: Module, reader: Option<Reader>, arch: Arch)
    requires request.maxFrames > 0
    requires request.maxFrames == 1 || m.fdes == [] || reader.None?
    ensures WalkOf(request, m, reader, arch) == Trail([], Ok, request.regs)
    ensures reader.Some? ==> forall before :: PastEnd(m, Ok, request.regs, reader.value, before) == before
  {
  }

  // ---------------------------------------------------------------------
  // What a capture means

  /** The last frame written is partial exactly when it is the only one: when there is
      room for one, no reader, no FDE for the first pc, or a failure at once. */
  lemma LastFramePartialIff(m: Module, request: Request, arch: Arch, reader: Option<Reader>, readerStatus: Status,
                            before: seq<Frame>)
    requires 0 < request.maxFrames <= |before| && WindowOf(request.regs, arch).Pass?
    ensures var r := CaptureIn(m, request, arch, reader, readerStatus, before);
            && 1 <= r.written <= request.maxFrames && |r.frames| == |before|
            && (r.frames[r.written - 1].flags == FLAG_PARTIAL <==> r.written == 1)
            && (r.written == 1
                <==> request.maxFrames == 1 || reader.None? || Covering(m.fdes, request.regs.pc).None?
                     || StepFrom(m, request.regs, reader.value).Fail?)
  {
    hide StepFrom, PastEnd, Follow, Filled, Covering;
    var t := WalkOf(request, m, reader, arch);
    FilledShape(m, RootFrame(request, WindowOf(request.regs, arch).value), t, reader, before);
    if reader.Some? {
      CallersAreWhole(m, request.regs, reader.value, arch, request.maxFrames - 1, request.modulePath);
    }
    var frames := CaptureIn(m, request, arch, reader, readerStatus, before).frames;
    assert t.frames != [] ==> frames[|t.frames|] == t.frames[|t.frames| - 1];
  }

  /** No caller's frame is partial, and when there are none. */
  lemma CallersAreWhole(m: Module, regs: Registers, reader: Reader, arch: Arch, budget: nat, path: string)
    ensures var t := Follow(m, regs, reader, arch, budget, path);
            && (forall k :: 0 <= k < |t.frames| ==> t.frames[k].flags == 0)
            && |t.frames| <= budget
            && (t.frames == []
                <==> budget == 0 || Covering(m.fdes, regs.pc).None? || StepFrom(m, regs, reader).Fail?)
  {
    hide StepFrom, Covering;
    var states := FollowIsMaximalWalk(m, regs, reader, arch, budget, path);
  }

  /** Frame `n` of the array after a capture that found `x` there. */
  ghost function SlotAfter(m: Module, request: Request, arch: Arch, reader: Option<Reader>, before: seq<Frame>, n: nat,
                           x: Frame): Frame
    requires 0 < request.maxFrames <= |before| && n < |before|
  {
    var after := CaptureIn(m, request, arch, reader, Ok, before[n := x]).frames;
    if n < |after| then after[n] else x
  }

  /** A capture leaves the array beyond the slot past its last frame alone, and can
      change that slot exactly when it stops short of its limit at registers whose
      evaluation finds the return address and then meets a slot it cannot read. */
  lemma SlotPastEndIff(m: Module, request: Request, arch: Arch, reader: Option<Reader>, before: seq<Frame>)
    requires 0 < request.maxFrames <= |before| && WindowOf(request.regs, arch).Pass?
    ensures var t, r := WalkOf(request, m, reader, arch), CaptureIn(m, request, arch, reader, Ok, before);
            && |r.frames| == |before|
            && (forall j :: r.written < j < |before| ==> r.frames[j] == before[j])
            && (r.written < |before| ==>
                  ((exists x :: SlotAfter(m, request, arch, reader, before, r.written, x) != x)
                   <==> r.written < request.maxFrames && reader.Some? && LateFaultAt(m, t.last, reader.value)))
  {
    hide Follow, PastEnd, LateFaultAt, Filled, SlotAfter;
    var t := WalkOf(request, m, reader, arch);
    var n := 1 + |t.frames|;
    FilledShape(m, RootFrame(request, WindowOf(request.regs, arch).value), t, reader, before);
    if reader.Some? {
      WalkOverwritesIff(m, request.regs, reader.value, arch, request.maxFrames - 1, request.modulePath);
    }
    if n < |before| {
      forall x
        ensures SlotAfter(m, request, arch, reader, before, n, x)
             == if reader.None? then x else PastEnd(m, t.status, t.last, reader.value, x)
      {
        SlotAfterIs(m, request, arch, reader, before, x);
      }
    }
  }

  lemma FilledShape(m: Module, root: Frame, t: Trail, reader: Option<Reader>, before: seq<Frame>)
    requires 1 + |t.frames| <= |before|
    ensures var all, n := Filled(m, root, t, reader, before), 1 + |t.frames|;
            && |all| == |before|
            && all[0] == root && all[1..n] == t.frames
            && (forall j :: n < j < |before| ==> all[j] == before[j])
            && (n < |before| ==>
                  all[n] == if reader.None? then before[n] else PastEnd(m, t.status, t.last, reader.value, before[n]))
  {
    hide PastEnd;
  }

  lemma SlotAfterIs(m: Module, request: Request, arch: Arch, reader: Option<Reader>, before: seq<Frame>, x: Frame)
    requires 0 < request.maxFrames <= |before| && WindowOf(request.regs, arch).Pass?
    requires 1 + |WalkOf(request, m, reader, arch).frames| < |before|
    ensures var t := WalkOf(request, m, reader, arch);
            SlotAfter(m, request, arch, reader, before, 1 + |t.frames|, x)
            == if reader.None? then x else PastEnd(m, t.status, t.last, reader.value, x)
  {
    hide PastEnd, Filled, WalkOf;
    var t := WalkOf(request, m, reader, arch);
    FilledShape(m, RootFrame(request, WindowOf(request.regs, arch).value), t, reader, before[1 + |t.frames| := x]);
  }

  /** The state of the library's context, apart from its cache, and how attaching turns
      out. */
  datatype Setting = Setting(cacheReady: bool, readerReady: bool, arch: Arch, attach: Result<Reader>)

  /** What a capture returns and writes after the captures `h` is what it would from a
      fresh context. */
  ghost predicate IgnoresHistory(h: seq<CacheLru.Use>, files: string -> Result<Module>, request: Request, at: Setting,
                                 before: seq<Frame>)
  {
    request.maxFrames <= |before| ==>
      CaptureResult(CacheLru.Captures(h), at.cacheReady, at.readerReady, request, files, at.arch, at.attach, before)
      == CaptureResult(Fresh(), at.cacheReady, at.readerReady, request, files, at.arch, at.attach, before)
  }

  /** With unchanging files, captures of given paths never depend on the captures before
      them, in what they return and write, exactly when none of the paths is stored as
      another. */
  lemma CapturesIgnoreHistoryIff(paths: iset<string>)
    ensures (forall h, files, request: Request, at, before ::
               request.modulePath in paths && CacheLru.Uses(h, paths) && CacheLru.LoadsFrom(h, files) ==>
                 IgnoresHistory(h, files, request, at, before))
       <==> CacheLru.NoneStoredAsAnother(paths)
  {
    hide IgnoresHistory, CacheLru.LoadsFrom;
    if CacheLru.NoneStoredAsAnother(paths) {
      forall h, files, request: Request, at, before
        | request.modulePath in paths && CacheLru.Uses(h, paths) && CacheLru.LoadsFrom(h, files)
        ensures IgnoresHistory(h, files, request, at, before)
      {
        CaptureIgnoresHistory(h, request, files, at, before);
      }
    } else {
      hide Stored;
      var p, q :| p in paths && q in paths && Stored(p) == q && p != q;
      StoredWholeIffItFits(p);
      CacheLru.ConfusedBy(p);
      CutPathShowsHistory(p);
      assert RootOnly(q).modulePath in paths && CacheLru.Uses(CacheLru.OnlyCapture(p), paths);
    }
  }

  /** A request for the root frame alone. */
  function RootOnly(path: string): Request {
    Request(path, Registers(0, 0, 0, 0, 0, seq(32, _ => 0)), 1, 0)
  }

  /** A context that is ready, with no process to attach to. */
  function Idle(): Setting {
    Setting(true, true, Arch(true, _ => Pass(0), _ => Pass(Window(0, 0)), _ => Pass(0), r => r), Fail(Io))
  }

  const BLANK: Frame := Frame(0, 0, 0, 0, 0, "")

  /** Where loading the cut path fails, a capture of it succeeds after one of the long
      path. */
  lemma CutPathShowsHistory(path: string)
    requires |path| > MAX_STORED
    ensures !IgnoresHistory(CacheLru.OnlyCapture(path), CacheLru.OnlyFile(path), RootOnly(Stored(path)), Idle(),
                            [BLANK])
  {
    hide Stored, Acquire, CacheLru.Captures, CaptureIn, CacheLru.OnlyFile;
    CacheLru.ConfusedBy(path);
    FreshFails(Stored(path), Io);
    RootOnlySucceeds(Stored(path));
  }

  lemma FreshFails(path: string, st: Failure)
    ensures Acquire(Fresh(), path, Fail(st)).handle == Fail(st)
  {
    hide Choose;
    ChooseIsEligible(Fresh().slots, 0, None);
    assert Fresh().slots[0].state == Unused;
  }

  lemma RootOnlySucceeds(path: string)
    ensures CaptureIn(EMPTY, RootOnly(path), Idle().arch, None, Ok, [BLANK]).status == Ok
  {
    hide Filled;
    NothingToFollow(RootOnly(path), EMPTY, None, Idle().arch);
  }

  /** With unchanging files, what a capture returns and writes after any run of captures
      is what it would from a fresh context, also when its load fails. */
  lemma CaptureIgnoresHistory(h: seq<CacheLru.Use>, request: Request, files: string -> Result<Module>, at: Setting,
                              before: seq<Frame>)
    requires CacheLru.LoadsFrom(h, files) && CacheLru.Unconfused(h, request.modulePath)
    ensures IgnoresHistory(h, files, request, at, before)
  {
    hide Acquire, CaptureIn;
    CacheLru.CaptureSeesFile(h, files, request.modulePath);
    CacheLru.CaptureSeesFile([], files, request.modulePath);
  }

  /** A module whose frame sections do not parse yields the root frame alone. */
  lemma UnparsedModuleGivesRootOnly(sections: Sections, request: Request, reader: Option<Reader>, arch: Arch)
    requires request.maxFrames > 0
    requires Build(sections).Fail? && Degrades(Build(sections).status)
    ensures IndexTables(sections) == Pass(EMPTY)
    ensures WalkOf(request, EMPTY, reader, arch) == Trail([], Ok, request.regs)
  {
    NothingToFollow(request, EMPTY, reader, arch);
  }
}
