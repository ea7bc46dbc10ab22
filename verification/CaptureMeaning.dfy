// What a capture returns and writes, said of the request, the module, the stack and the
// architecture's operations.
module CaptureMeaning {
  import opened Machine
  import opened CfiProgram
  import opened CfiMeaning
  import opened CfiSection
  import opened CfiTables
  import opened CfiEval
  import opened CfiOutcome
  import opened ModuleCache
  import opened Capture
  import CacheLru
  import CfiIndex

  /** The window of the root frame: as the frame is opened; where that is not
      implemented, by its parts, the CFA falling back to the stack pointer and the
      return address by the pc. */
  lemma WindowOutcome(regs: Registers, arch: Arch)
    ensures var w, cfa := WindowOf(regs, arch), arch.computeCfa(regs);
            var frame, ra := arch.openFrame(regs), arch.readReturn(regs);
            if !arch.supported then w == Fail(UnsupportedArch)
            else if cfa.Fail? && cfa.status != NotImplemented then w == Fail(cfa.status)
            else if frame.Pass? then w == Pass(frame.value)
            else if frame.status != NotImplemented then w == Fail(frame.status)
            else if ra.Fail? && ra.status != NotImplemented then w == Fail(ra.status)
            else
              && w.Pass?
              && w.value.cfa == (if cfa.Pass? then cfa.value else regs.sp)
              && w.value.ra == (if ra.Pass? then ra.value else regs.pc)
  {
  }

  predicate InRange(fde: FdeRecord, pc: u64) {
    fde.pcBegin <= pc && pc < fde.pcBegin + fde.pcRange && fde.pcBegin + fde.pcRange < 0x1_0000_0000_0000_0000
  }

  /** The first FDE whose range holds the pc. */
  ghost predicate IsFirst(fdes: seq<FdeRecord>, pc: u64, i: nat) {
    i < |fdes| && InRange(fdes[i], pc) && forall j :: 0 <= j < i ==> !InRange(fdes[j], pc)
  }

  lemma CoveringIsFirst(fdes: seq<FdeRecord>, pc: u64)
    ensures Covering(fdes, pc).Some? ==> IsFirst(fdes, pc, Covering(fdes, pc).value)
    ensures Covering(fdes, pc).None? <==> forall i :: 0 <= i < |fdes| ==> !InRange(fdes[i], pc)
  {
    hide Covering;
    assert forall i :: 0 <= i < |fdes| ==> (Covers(fdes[i], pc) <==> InRange(fdes[i], pc)) by {
      forall i | 0 <= i < |fdes| ensures Covers(fdes[i], pc) <==> InRange(fdes[i], pc) {
        CoversIff(fdes[i], pc);
      }
    }
    CoveringFacts(fdes, pc);
  }

  lemma CoveringFacts(fdes: seq<FdeRecord>, pc: u64)
    ensures var r := Covering(fdes, pc);
            && (r.Some? ==> r.value < |fdes| && Covers(fdes[r.value], pc))
            && (r.Some? ==> forall i :: 0 <= i < r.value ==> !Covers(fdes[i], pc))
            && (r.None? ==> forall i :: 0 <= i < |fdes| ==> !Covers(fdes[i], pc))
  {
  }

  /** One step up the stack by the row that an FDE and its CIE have for the pc. The CFA
      is that row's; the return address, pc and every register are kept or read from the
      stack at the CFA plus the row's offset. */
  ghost predicate IsCallerBy(cie: CieRecord, fde: FdeRecord, regs: Registers, caller: Registers, reader: Reader)
    requires cie.returnReg < 32
  {
    var row := RowAt(cie, fde, regs.pc).rules;
    && row.cfaReg != 0xffff
    && Same64(caller.sp, (if row.cfaReg < 32 then regs.regs[row.cfaReg] as int else 0) + row.cfaOffset)
    && caller.pc == caller.regs[cie.returnReg]
    && forall r :: 0 <= r < 32 ==>
         if row.regs[r].AtOffset? then reader(SlotOf(row, caller.sp, r)) == Pass(caller.regs[r])
         else caller.regs[r] == regs.regs[r]
  }

  /** The FDE is the first for the pc, and the CIE its own. */
  ghost predicate IsCaller(m: Module, regs: Registers, caller: Registers, reader: Reader) {
    exists i: nat :: IsFirst(m.fdes, regs.pc, i) && IsCallerBy(m.cies[m.fdes[i].cie], m.fdes[i], regs, caller, reader)
  }

  lemma StepIsCaller(m: Module, regs: Registers, reader: Reader, caller: Registers)
    requires Covering(m.fdes, regs.pc).Some? && StepFrom(m, regs, reader).Pass?
    requires var c := StepFrom(m, regs, reader).value; caller.pc == c.pc && caller.sp == c.sp && caller.regs == c.regs
    ensures IsCaller(m, regs, caller, reader)
  {
    hide Unwind, RowAt, Covering, IsFirst, SlotOf, Lost, Same64;
    CoveringIsFirst(m.fdes, regs.pc);
    CoveringFacts(m.fdes, regs.pc);
    var i := Covering(m.fdes, regs.pc).value;
    CoversIff(m.fdes[i], regs.pc);
    var cfa := EvalOutcome(m.cies[m.fdes[i].cie], m.fdes[i], regs.pc, regs, reader);
    assert IsCallerBy(m.cies[m.fdes[i].cie], m.fdes[i], regs, caller, reader);
  }

  /** `frames` show, one by one, the callers that `states` passes through. */
  ghost predicate IsChain(m: Module, reader: Reader, path: string, states: seq<Registers>, frames: seq<Frame>) {
    && |states| == |frames| + 1
    && forall k :: 0 <= k < |frames| ==>
         && IsCaller(m, states[k], states[k + 1], reader)
         && frames[k].pc == frames[k].ra == states[k + 1].pc
         && frames[k].sp == frames[k].cfa == states[k + 1].sp
         && frames[k].flags == 0
         && IsCut(path, frames[k].modulePath)
  }

  lemma WalkIsChain(m: Module, reader: Reader, arch: Arch, path: string, states: seq<Registers>, frames: seq<Frame>)
    requires KeepsValues(arch) && IsWalk(m, reader, arch, path, states, frames)
    ensures IsChain(m, reader, path, states, frames) && |states| == |frames| + 1
  {
    hide StepFrom, Covering, IsCaller, Stored, IsCut;
    StoredIsCut(path);
    forall k | 0 <= k < |frames|
      ensures IsCaller(m, states[k], states[k + 1], reader)
      ensures frames[k]
           == Frame(states[k + 1].pc, states[k + 1].sp, states[k + 1].sp, states[k + 1].pc, 0, Stored(path))
    {
      var caller := StepFrom(m, states[k], reader).value;
      assert arch.normalize(caller).pc == caller.pc;
      StepIsCaller(m, states[k], reader, states[k + 1]);
    }
  }

  /** For every capture whose root window opens: the array is a chain. Frame 0 shows the
      request's own pc and sp with the window; each further frame shows the pc, as its
      return address too, and the sp, as its CFA too, of the caller of the registers
      before; all carry the module's path. */
  lemma CaptureIsChain(m: Module, request: Request, arch: Arch, reader: Option<Reader>, readerStatus: Status,
                       before: seq<Frame>)
    returns (states: seq<Registers>)
    requires 0 < request.maxFrames <= |before| && WindowOf(request.regs, arch).Pass? && KeepsValues(arch)
    ensures var r := CaptureIn(m, request, arch, reader, readerStatus, before);
            var window := WindowOf(request.regs, arch).value;
            && 1 <= r.written <= request.maxFrames && |r.frames| == |before|
            && r.frames[0].pc == request.regs.pc && r.frames[0].sp == request.regs.sp
            && r.frames[0].cfa == window.cfa && r.frames[0].ra == window.ra && r.frames[0].flags == 1
            && IsCut(request.modulePath, r.frames[0].modulePath)
            && states != [] && states[0] == request.regs
            && if reader.None? then r.written == 1
               else IsChain(m, reader.value, request.modulePath, states, r.frames[1..r.written])
  {
    hide WalkOf, Filled, RootFrame, IsChain, WindowOf, IsCut;
    var t := WalkOf(request, m, reader, arch);
    var root := RootFrame(request, WindowOf(request.regs, arch).value);
    RootShows(request, WindowOf(request.regs, arch).value);
    states := TrailIsChain(m, request, arch, reader);
    FilledShape(m, root, t, reader, before);
  }

  lemma RootShows(request: Request, window: Window)
    ensures var root := RootFrame(request, window);
            && root.pc == request.regs.pc && root.sp == request.regs.sp
            && root.cfa == window.cfa && root.ra == window.ra && root.flags == 1
            && IsCut(request.modulePath, root.modulePath)
  {
    hide Stored, IsCut;
    StoredIsCut(request.modulePath);
  }

  lemma TrailIsChain(m: Module, request: Request, arch: Arch, reader: Option<Reader>) returns (states: seq<Registers>)
    requires 0 < request.maxFrames && KeepsValues(arch)
    ensures var t := WalkOf(request, m, reader, arch);
            && states != [] && states[0] == request.regs && |t.frames| < request.maxFrames
            && if reader.None? then t.frames == []
               else IsChain(m, reader.value, request.modulePath, states, t.frames)
  {
    hide Follow, IsChain, KeepsValues, IsWalk, CannotContinue;
    states := [request.regs];
    if reader.Some? {
      var t := Follow(m, request.regs, reader.value, arch, request.maxFrames - 1, request.modulePath);
      states := FollowIsMaximalWalk(m, request.regs, reader.value, arch, request.maxFrames - 1, request.modulePath);
      WalkIsChain(m, reader.value, arch, request.modulePath, states, t.frames);
    }
  }

  /** Every outcome of a capture: which failure it returns, when it stops at the root
      frame, and when it walks. */
  lemma CaptureOutcome(c: Cache, cacheReady: bool, readerReady: bool, request: Request, files: string -> Result<Module>,
                       arch: Arch, attach: Result<Reader>, before: seq<Frame>)
    requires request.maxFrames <= |before|
    ensures var out := CaptureResult(c, cacheReady, readerReady, request, files, arch, attach, before);
            if request.maxFrames == 0 || !cacheReady then out == Captured(InvalidArg, 0, before)
            else
              var a := Acquire(c, request.modulePath, files(request.modulePath));
              if a.handle.Fail? then out == Captured(a.handle.status, 0, before)
              else
                a.handle.value < 16 &&
                var m, window := a.cache.slots[a.handle.value].content, WindowOf(request.regs, arch);
                if window.Fail? then out == Captured(window.status, 0, before)
                else if !readerReady || request.pid <= 0 || request.maxFrames == 1 then
                  out.status == Ok && out.written == 1
                else if attach.Fail? then out.status == attach.status && out.written == 1
                else
                  var t := Follow(m, request.regs, attach.value, arch, request.maxFrames - 1, request.modulePath);
                  out.status == t.status && out.written == 1 + |t.frames|
  {
    hide Follow, Acquire, Filled, WindowOf;
    AcquiredSlot(c, request.modulePath, files(request.modulePath));
  }

  /** A module whose .eh_frame is malformed yields the root frame alone, whatever its
      .debug_frame holds. */
  lemma BadEhFrameGivesRootOnly(sections: Sections, request: Request, arch: Arch, reader: Option<Reader>,
                                readerStatus: Status, before: seq<Frame>)
    requires 0 < request.maxFrames <= |before| && WindowOf(request.regs, arch).Pass?
    requires CfiIndex.EhWalk(sections).status == BadFormat || CfiIndex.EhWalk(sections).status == NotImplemented
    ensures IndexTables(sections) == Pass(EMPTY)
    ensures CaptureIn(EMPTY, request, arch, reader, readerStatus, before).written == 1
  {
    hide IndexTables, CfiIndex.EhWalk, WindowOf, Filled;
    CfiIndex.BadEhFrameEmpties(sections);
    NothingToFollow(request, EMPTY, reader, arch);
  }
}
