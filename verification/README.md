# Verification of the DWARF unwinder and the leak accounting

This project models the core of `libdwunw` and of its `memleak` example in Dafny 4.11, and proves what they
promise. `dafny verify dfyconfig.toml` checks everything.

Four layers are modelled:

- **Call-frame information** (`src/dwarf/cfi.c`): the LEB128 and fixed-width readers, the CIE/FDE section parser, the
  instruction decoder, the interpreter that stops early at a target pc, and the evaluator that turns a row of rules
  into caller registers. The reference points are the row table of sections 6.4.1 and 6.4.3 of DWARF 5 and the
  encodings of its section 7.6.
- **Module cache and capture** (`src/dwarf/module_cache.c`, `src/unwinder/dwunw_unwind.c`): the 16-slot
  reference-counted cache and the loop that chains frames.
- **Leak accounting** (`examples/memleak_bcc_dwunw/memleak_dwunw.bpf.c` and the two reports of
  `memleak_dwunw_user.c`): interleaved handlers over shared maps and a bit-packed summary word.
- **Symbol tables** (`examples/memleak_bcc_dwunw/trace_helpers.c`): the growing string arena and two binary searches.

| file | contents |
|---|---|
| `Machine.dfy`, `Leb128.dfy` | machine words, status codes; byte readers |
| `CfiProgram.dfy`, `CfiMachine.dfy` | instructions, runs and row tables; bytes, encodings and the interpreter |
| `CfiMeaning.dfy` | what a run leaves, by the last instruction that sets each part of a row |
| `GrowVector.dfy`, `CfiSection.dfy`, `CfiTables.dfy` | growing record arrays; section parser; loaded tables |
| `CfiBounds.dfy`, `CfiIndex.dfy` | when the parser leaves the bytes of an entry; which tables the two sections give |
| `CfiSerial.dfy`, `CfiPipeline.dfy` | written sections and their round trip; written instructions through to unwinding |
| `CfiFixture.dfy` | the unit test's own section, as a witness that the theorems about sections and evaluation are not vacuous |
| `CfiEval.dfy`, `CfiOutcome.dfy` | recovering a caller's registers; every outcome of that, by the written programs, registers and stack |
| `ModuleCache.dfy`, `CacheHistory.dfy`, `CacheLru.dfy`, `Capture.dfy`, `CaptureMeaning.dfy` | the cache, its runs, its LRU theorem; captures, and what they return and write |
| `Packed.dfy`, `LeakCounters.dfy`, `LeakReport.dfy` | the packed word; the handlers' steps and the conservation law; the reports |
| `LateFailure.dfy`, `LeakDepartures.dfy` | inputs and runs at which the conditions of the theorems fail |
| `Symbols.dfy` | symbol tables |

## How the model reads the code

- C integers are mathematical integers with explicit wrapping (`Wrap`, `ToSigned`); a bitwise OR of disjoint bits is
  written as addition. Signed overflow and over-long shifts wrap as the targets' compilers make them. The host is
  little-endian.
- A byte cursor and its end pointer are indices into a sequence, a pointer to an array slot is the array and an index,
  a module handle is an index. An FDE's link to its CIE is an index and the capacity of the storage it pointed into,
  which identifies that storage because every reallocation enlarges it. The old storage counts as gone even where
  `realloc` extends it in place: by section 7.22.3.5 of C17 pointers into it are then indeterminate. Pointer arithmetic
  does not wrap, except past an augmentation block of unchecked size.
- Functions state what bytes or calls mean; methods follow the code's loops and in-place updates and are proved equal
  to them. The lemmas about those functions carry the results.
- An entry of fewer than four bytes makes the parser read outside the entry, and so does an augmentation size so large
  that the block's end wraps at 2^64 and passes the code's test (`src/dwarf/cfi.c:377`, `src/dwarf/cfi.c:470`). The
  model gives the cases the code still rejects and otherwise answers `Unspecified`, of which nothing is claimed;
  `CfiBounds.UnspecifiedIffStrays` says exactly when.
- Evaluation indexes 32 registers by the CIE's return register and follows the pointers of FDEs, so modules are taken to
  name one of those registers and to have every pointer lead into their table. `CfiPipeline.WrittenModuleIff` says which
  written sections make such a module.
- Loading a file, attaching to a process and reading its stack, the architecture's register conventions, clocks and
  sampling, the order in which a kernel map yields its keys, and `qsort` are parameters.
- Specification functions that a method is proved against are themselves tied down by theorems that do not use them:
  the interpreter's in `CfiMeaning`, the parser's by the round trip and `CfiIndex`, the evaluator's in `CfiOutcome`, the
  capture's in `CaptureMeaning`, the handlers' by `LeakCounters.LiveWasRecorded` and the law, the report's by
  `LeakReport.GroupedIsReported`.
- Opcode numbers 0x11, 0x12, 0x1a and 0x1b are those of the code, which differ from section 7.24 of DWARF 5.

## Where the code departs from its documentation or from expectation

- `doc/api_usage.md` says that the last frame is marked partial when reading fails or an FDE is missing. In the code
  only frame 0 is ever partial, so the last frame is exactly when it is the only one: with room for one frame, no
  reader, no FDE for the first pc, or an evaluation that fails at once (`Capture.LastFramePartialIff`). With the unit
  test's module and a stack of zeros the walk ends at a second frame that no FDE covers and that is not marked
  (`CfiFixture.MissingFdeIsNotMarked`).
- An FDE keeps a pointer into the array of CIEs, and a later CIE can reallocate that array (`src/dwarf/cfi.c:96`, stored
  at `src/dwarf/cfi.c:442`, read at `src/dwarf/cfi.c:883`). For any bytes the pointer leads into the final array exactly
  when all CIEs fit the storage that held those read before the FDE (`CfiTables.PointerKeptIff`; for written sections
  `CfiSerial.PointerSurvivesIff`), as they do with up to eight (`CfiTables.EightCiesKeepPointers`); one CIE, an FDE and
  eight more CIEs lose it (`CfiSerial.NinthCieMovesTheTable`). Modules are taken to meet that condition.
- The CIE pointer of an .eh_frame FDE is measured from the byte after the field (`src/dwarf/cfi.c:429`), not from the
  field as the Linux Standard Base says. An .eh_frame section laid out by that standard fails to parse at its first FDE,
  and the module is then left empty whatever its .debug_frame holds (`CfiIndex.StandardEhFrameEmpties`).
- A PC-relative address is likewise recorded too high by the width of its field (`CfiSerial.PcRelativeIsHigh`).
- Both sections' CIEs share one table and are told apart by offset alone, so a .debug_frame FDE is linked to its own CIE
  exactly when no .eh_frame CIE stands at the same offset (`CfiIndex.OwnCieIffNoneBefore`); `CfiIndex.DebugFdeTakesEhCie`
  is a module where it is not.
- An FDE whose range ends at 2^64 or beyond covers no address (`CfiTables.CoversIff`).
- A failed evaluation may already have written the frame slot just past the last counted frame. It does so exactly when
  the pc is covered, both programs are well formed, a CFA is defined and the return address can be read, but another
  register's slot cannot (`CfiEval.FailedEvalWritesFrameIff`, for the caller's array `Capture.SlotPastEndIff`); slots
  beyond that one are untouched. `LateFailure.UncountedFrameIsWritten` is such a capture. The registers before the
  unreadable one are then restored already, pc and sp not (`CfiEval.FailedEvalRestoresPrefix`).
- A module path longer than 511 bytes is stored cut but compared whole, so a module just loaded is found again exactly
  when its path fits (`ModuleCache.FoundAgainIffItFits`). Resident paths stay distinct over every run on given paths
  exactly when all of them fit (`CacheHistory.RunsKeepInvIff`): an over-long path acquired twice is in two slots
  (`CacheHistory.LongPathIsStoredTwice`).
- The cut path is given the long path's module (`CacheLru.CutPathGetsLongModule`). Captures of given paths always work
  with their own files, and return and write what they would from a fresh context, exactly when none of the paths is
  stored as another (`CacheLru.CapturesSeeFilesIff`, `Capture.CapturesIgnoreHistoryIff`).
- The symbol search of an object loses an offset inside a symbol when a later, shorter symbol starts inside it and ends
  before it. `Symbols.FindsAllCoveredIff` gives the exact condition on the table, `Symbols.NestedSymbolHidesOffset` a
  table of two symbols that fails it; ranges that end before the next begins meet it.
- A map walk that starts from key 0 reaches every key exactly when 0 is not a key (`LeakReport.VisitsAllIffNoZero`); one
  allocation from stack 0 is missed by the combined report (`LeakDepartures.StackZeroIsMissed`).
- Each handler step keeps the accounting law exactly when its guard holds, and a run keeps it throughout exactly when
  every step is guarded (`LeakCounters.StepKeepsLawIff`, `LeakCounters.RunKeepsLawIff`): recording over a live address, a
  full map, a free that races with another on the same address, and a subtract before the stack's summary entry exists
  all break it. `LeakDepartures` has runs that end with the law broken and nothing under way: `RecordingOverLiveBreaksLaw`,
  `FullSummariesBreakLaw`, `RacingFreesBreakLaw` and `FreeBeforeEntryBreaksLaw`.
- With a minimum age longer than the clock has run the difference wraps, and allocations of any earlier time are
  reported (`LeakReport.NodesAreReported` has both cases).
- A size of 2^40 bytes or more is cut in the packed word, which can spoil the count although both totals are in range
  (`Packed.CutSizeSpoilsCount`); `Packed.UpdatesUnpackToNet` gives the exact condition.
- A program whose locations go back is cut at its first excess, unlike the table (`CfiProgram.BackwardProgramsDiffer`).
  For every program `CfiProgram.RunFindsExcess` says what the run yields; it is the table's lookup at every target from
  the first location on exactly when no row above that location is followed by a lower one
  (`CfiProgram.StopIsLookupIffNoDip`).

## Model

| member | source | states |
|---|---|---|
| Leb128.ReadersAccept | src/dwarf/cfi.c:149-200 | both LEB128 readers accept exactly the inputs with a final byte among the first ten, and consume the bytes up to it |
| Leb128.ReadUleb | src/dwarf/cfi.c:149-170 | the loop returns the base-128 value modulo 2^64 and the advanced cursor, or fails, as the specification function says |
| Leb128.ReadSleb | src/dwarf/cfi.c:172-200 | the signed loop returns the sign-extended base-128 value modulo 2^64, or fails |
| Leb128.UlebRoundTrip | src/dwarf/cfi.c:149-170 | reading inverts the unsigned encoding of every 64-bit value, whatever bytes follow |
| Leb128.SlebRoundTrip | src/dwarf/cfi.c:172-200 | reading inverts the signed encoding of every 64-bit value, whatever bytes follow |
| Leb128.ReadFixed | src/dwarf/cfi.c:218-244 | a load succeeds exactly for widths 1, 2, 4 and 8 with enough bytes left, and yields the little-endian word |
| Leb128.FixedRoundTrip | src/dwarf/cfi.c:218-244 | a written word is read back |
| CfiMachine.DecodeEncode | src/dwarf/cfi.c:669-851 | decoding inverts encoding for every supported instruction and any following bytes |
| CfiMachine.DisassembleEncoded | src/dwarf/cfi.c:669-851 | a whole instruction list survives encoding, the cursor landing on every instruction boundary |
| CfiMachine.ExecuteCfi | src/dwarf/cfi.c:656-854 | the interpreter's state updates and status on any bytes are the early-stopping run of their disassembly |
| CfiMeaning.RunMeaning | src/dwarf/cfi.c:669-851 | for every list, target and row: the instructions executed are those before the first that starts a row beyond the target; the CFA register, the CFA offset and each register's rule are set by the last of them that has one, factored or restored, and everything else is as at the start |
| CfiMeaning.ExecuteMeaning | src/dwarf/cfi.c:656-854 | the same of the interpreter on encoded bytes |
| CfiMachine.OpcodeTable | src/dwarf/cfi.c:679-849 | the opcode and operand bytes of every instruction |
| CfiMachine.DecodeFailsIff | src/dwarf/cfi.c:672-851 | for any bytes: which opcodes are unsupported, and when an operand is malformed |
| CfiMachine.ExecuteEncoded | src/dwarf/cfi.c:656-854 | on the encoding of an instruction list the interpreter gives the list's run |
| CfiMachine.BytesAfterStop | src/dwarf/cfi.c:672-754 | bytes after the stopping advance cannot affect the result |
| CfiProgram.RunFindsExcess | src/dwarf/cfi.c:656-854 | for every program the run yields the table row before the first row beyond the target, and the matching status |
| CfiProgram.RunIsTableLookup | src/dwarf/cfi.c:656-854 | when no row above the first location is followed by a lower one, the early-stopping run is the lookup of the last row at or below the target |
| CfiProgram.StopIsLookupIffNoDip | src/dwarf/cfi.c:656-854 | the row where runs stop is the lookup's row for every reachable target exactly under that condition |
| CfiProgram.ForwardIffNonDecreasing | src/dwarf/cfi.c:706-754 | a table's locations never decrease exactly when no instruction of the program moves the location back |
| CfiProgram.ForwardRunIsTableLookup | src/dwarf/cfi.c:656-854 | a program that never moves back runs as the lookup in its table, for every target |
| CfiProgram.BackwardProgramsDiffer | src/dwarf/cfi.c:706-720 | a program with a dip on which the run and the lookup give different rules |
| CfiProgram.RunFoldsExecuted | src/dwarf/cfi.c:669-679 | a run is the plain fold of the instructions it executes |
| CfiProgram.ExecutedMonotone | src/dwarf/cfi.c:669-679 | the instructions executed for a smaller pc are a prefix of those for a larger one |
| CfiProgram.ConstantBetweenMoves | src/dwarf/cfi.c:715-754 | two targets with no location between them give the same result |
| CfiProgram.GreatestTargetRunsAll | src/dwarf/cfi.c:882-893 | the CIE replay with the greatest target never stops early |
| GrowVector.Vector.Append | src/dwarf/cfi.c:81-134 | an append keeps all earlier records in order, within the capacity of the doubling policy, in the same storage or in new and larger storage |
| GrowVector.Vector.Reserve | src/dwarf/cfi.c:81-104 | reserving keeps the records and grows by doubling, or to the demand when that is larger |
| GrowVector.DoublingIsLinear | src/dwarf/cfi.c:81-134 | n appends copy fewer than 2n records and the count stays within the capacity |
| GrowVector.StorageKeptIff | src/dwarf/cfi.c:81-104 | the storage in use after a appends is still in use after b exactly when b fits it |
| CfiSection.ParseCie | src/dwarf/cfi.c:316-408 | the parser appends the record that the entry's bytes mean, or fails with their status and appends nothing; a wrapping augmentation size is left unspecified |
| CfiSection.ParseFde | src/dwarf/cfi.c:412-479 | likewise for an FDE, linked to the first CIE at the offset it points to, inside the storage the CIEs are in at that moment |
| CfiSection.ReadEncodedPointer | src/dwarf/cfi.c:248-312 | the encoded pointer at the cursor, by format and application, or the code's failure |
| CfiSerial.PointerReads | src/dwarf/cfi.c:248-312 | every supported pointer encoding is read back, as its own value or relative to the byte after it |
| CfiSerial.PointerOutcome | src/dwarf/cfi.c:265-309 | for any bytes: how reading a pointer fails |
| CfiSection.ParseSection | src/dwarf/cfi.c:483-544 | the section loop's status and tables are the entry-by-entry walk from the tables given |
| CfiBounds.UnspecifiedIffStrays | src/dwarf/cfi.c:377-522 | for any bytes, parsing leaves an entry exactly when the entry it stops at is shorter than its id and is cut by the section's end or names a known CIE, or has an augmentation size whose block wraps |
| CfiBounds.ShortEntryFails | src/dwarf/cfi.c:508-522 | a short entry that does not do so fails the parse |
| CfiBounds.FiveBytesStray | src/dwarf/cfi.c:499-514 | a section of five bytes whose id is read past its end |
| CfiSerial.SectionRoundTrip | src/dwarf/cfi.c:316-544 | parsing any written section of either kind, with any CIE version, augmentation and supported pointer encoding, on empty tables returns its records in order, every FDE with the index of its own CIE and the storage of the CIEs read before it |
| CfiSerial.WalkGoesOn | src/dwarf/cfi.c:499-541 | whatever follows written entries, the parser reads them and goes on behind them with their records |
| CfiSerial.OverlongEntryFails | src/dwarf/cfi.c:508-510 | an entry announced longer than the section fails the parse |
| CfiSerial.StandardEhFdeFails | src/dwarf/cfi.c:429-439 | an .eh_frame FDE with the standard's CIE pointer fails the parse |
| CfiSerial.PcRelativeIsHigh | src/dwarf/cfi.c:299-306 | a standard PC-relative address is recorded too high by its field's width |
| CfiSerial.PointerSurvivesIff | src/dwarf/cfi.c:436-470 | after parsing a written section an FDE's pointer leads into the final CIE array exactly when all its CIEs fit the storage of those before the FDE |
| CfiSerial.NinthCieMovesTheTable | src/dwarf/cfi.c:96-103 | a section of nine CIEs whose one FDE is left pointing into replaced storage |
| CfiSerial.RecordOf | src/dwarf/cfi.c:404-407 | the k-th entry's record stands at its rank among its kind, with its own fields and offset |
| CfiSerial.EntriesTile | src/dwarf/cfi.c:499-541 | entries tile the section: each ends, by its length word, where the next begins |
| CfiTables.WalkExtends | src/dwarf/cfi.c:436-442 | a walk only appends records, and every FDE it adds points at an existing CIE's place in storage that the CIEs are or were in |
| CfiTables.PointerKeptIff | src/dwarf/cfi.c:436-442 | for any FDE of any section the pointer taken when it is read leads into the array after later reading exactly when the CIEs then fit the storage of that time |
| CfiTables.EightCiesKeepPointers | src/dwarf/cfi.c:91 | with at most eight CIEs no pointer is lost |
| CfiTables.CfiBuild | src/dwarf/cfi.c:546-588 | .eh_frame then .debug_frame into one pair of tables, or the first failure, or NO_DEBUG_DATA without FDEs |
| CfiIndex.BuildOutcome | src/dwarf/cfi.c:546-588 | building passes exactly when both walks do and there is an FDE, with the tables of both, and otherwise fails as the first failing walk or for want of an FDE |
| CfiIndex.IndexOutcome | src/dwarf/dwarf_index.c:23-61 | what indexing keeps, when the module is left empty, and when it fails |
| CfiIndex.BadEhFrameEmpties | src/dwarf/cfi.c:566-570 | a malformed .eh_frame leaves the module empty whatever .debug_frame holds |
| CfiIndex.DebugFrameAlone | src/dwarf/cfi.c:546-588 | a written .debug_frame with an FDE and an empty .eh_frame give its records |
| CfiIndex.EhFrameAlone | src/dwarf/cfi.c:546-588 | so do a written .eh_frame and an empty .debug_frame |
| CfiIndex.StandardEhFrameEmpties | src/dwarf/cfi.c:429-439 | an .eh_frame by the standard leaves the module empty |
| CfiIndex.OwnCieIffNoneBefore | src/dwarf/cfi.c:136-147 | a .debug_frame FDE is linked to its own CIE exactly when no .eh_frame CIE has the same offset |
| CfiIndex.DebugFdeTakesEhCie | src/dwarf/cfi.c:566-578 | a module whose .debug_frame FDE is linked to an .eh_frame CIE |
| CfiTables.IndexInit | src/dwarf/dwarf_index.c:23-61 | indexing keeps the built tables and degrades the three recoverable failures to empty ones |
| CfiTables.IndexFailsOnlyUnspecified | src/dwarf/dwarf_index.c:47-57 | no section content makes indexing fail, entries whose bytes the parser leaves aside |
| CfiTables.FindFde | src/dwarf/cfi.c:598-617 | the first FDE whose range covers the pc, or none |
| CfiTables.CoversIff | src/dwarf/cfi.c:598-617 | a range holds the addresses from its beginning up to its end, and none when it ends at 2^64 or beyond |
| CfiPipeline.ParsedPair | src/dwarf/cfi.c:316-479 | a written FDE and its CIE are parsed to their own fields, the location as its CIE encodes it |
| CfiPipeline.WrittenProgramsUnwindByTable | src/dwarf/cfi.c:483-905 | for every written section, FDE without a dip and covered pc, parsing, decoding and the early-stopping replay select the row of the table that the written instructions unroll to; the pointer to the CIE is valid exactly when the CIEs fit |
| CfiPipeline.WrittenRowMeaning | src/dwarf/cfi.c:483-905 | for every written section, FDE and pc the row is what the CIE's instructions and then the FDE's up to the first row beyond the pc leave, by their last writers, unsupported endings counting for nothing |
| CfiPipeline.WrittenModuleIff | src/dwarf/cfi.c:436-442 | a written section makes a module with every pointer in its table and every return register in range exactly when all CIEs fit the storage before each FDE and the written registers are in range |
| CfiFixture.FixtureParses | tests/unit/test_cfi.c:15-30 | a witness for the section theorems: the unit test's bytes parse to its one CIE and one FDE |
| CfiFixture.FixtureUnwinds | tests/unit/test_cfi.c:77-110 | a witness for the evaluation theorems: the test's FDE puts the CFA at r7 + 16 and the return address at CFA + 8 |
| CfiFixture.MissingFdeIsNotMarked | src/unwinder/dwunw_unwind.c:133-157 | a capture that stops at a second frame without an FDE and leaves it unmarked, which doc/api_usage.md has partial |
| CfiEval.RowAtIsTableRow | src/dwarf/cfi.c:879-905 | evaluation uses the row of the FDE's table, built on the CIE's defaults, that the pc selects |
| CfiEval.DefaultsRunAll | src/dwarf/cfi.c:882-893 | the defaults are the fold of the whole CIE program |
| CfiEval.RowIsDefined | src/dwarf/cfi.c:66-77 | no reachable rule is undefined, so no register is zeroed |
| CfiOutcome.RowMeaning | src/dwarf/cfi.c:879-905 | the row in force: all of the CIE's instructions from a blank row, then the FDE's up to the first that starts a row beyond the pc |
| CfiOutcome.UnsupportedOpcodeEnds | src/dwarf/cfi.c:882-905 | an unsupported opcode with anything after it, in either program, changes nothing of what evaluation returns or writes |
| CfiOutcome.CutOperandFails | src/dwarf/cfi.c:882-905 | a malformed operand that is reached makes evaluation fail with BAD_FORMAT and write nothing |
| CfiOutcome.CutOperandAfterStop | src/dwarf/cfi.c:715-754 | behind the stop it is not reached and changes nothing |
| CfiOutcome.EvalOutcome | src/dwarf/cfi.c:856-967 | for every row, register set and stack: with which status evaluation fails, in which order, and the caller's registers when it does not |
| CfiOutcome.FrameOutcome | src/dwarf/cfi.c:932-937 | when evaluation writes its frame, and with what |
| CfiEval.UnwindSucceeds | src/dwarf/cfi.c:875-930 | evaluation succeeds exactly when the pc is covered, both programs are well formed, a CFA is defined and every saved register can be read |
| CfiEval.UnwindRestores | src/dwarf/cfi.c:911-966 | each caller register is its old value or the word at the old registers' CFA plus its offset; return register, pc, frame pc and frame ra agree |
| CfiEval.FailedEvalWritesFrameIff | src/dwarf/cfi.c:875-961 | a failing evaluation overwrites its frame exactly when the pc is covered, both programs are well formed, a CFA is defined, the return address can be read and some other saved register cannot |
| CfiEval.FailedEvalRestoresPrefix | src/dwarf/cfi.c:939-966 | after a failure pc and sp are as before, and so are all registers but those below the first unreadable slot, which hold their caller's values |
| CfiEval.RestoreLoop | src/dwarf/cfi.c:939-961 | the in-place register loop is the simultaneous restoration, or stops with the first fault, registers before it restored and the others as they were |
| CfiEval.EvalFrame | src/dwarf/cfi.c:856-967 | the evaluator's status, the whole register set and the frame, on success and on every failure |
| ModuleCache.ChooseIsEligible | src/dwarf/module_cache.c:38-63 | the scan picks the first unused slot, else the oldest warm one, else none because all are active |
| ModuleCache.AcquireKeepsSound | src/dwarf/module_cache.c:97-148 | acquiring any path keeps: active iff referenced, warm sequence numbers distinct and within 1..clock, unused slots clear |
| ModuleCache.AcquireKeepsInvIff | src/dwarf/module_cache.c:97-148 | resident paths stay distinct too exactly when the acquire does not load a path into one slot while another shows the path it is stored as |
| ModuleCache.ReleaseKeepsInv | src/dwarf/module_cache.c:150-183 | releasing keeps the same invariant |
| ModuleCache.ReleaseOutcome | src/dwarf/module_cache.c:150-183 | a release succeeds exactly for a referenced slot in use, and otherwise changes nothing |
| ModuleCache.StoredIsCut | src/dwarf/module_cache.c:128-147 | a path is stored whole or as its first 511 bytes |
| ModuleCache.FoundAgainIffItFits | src/dwarf/module_cache.c:29-31 | a module just loaded is found again exactly when its path fits its entry |
| ModuleCache.FullIffAllActive | src/dwarf/module_cache.c:123-126 | CACHE_FULL exactly when the path is absent and every slot is active |
| ModuleCache.FailedAcquireLosesOldest | src/dwarf/module_cache.c:123-140 | a failed acquire loses at most the one oldest warm entry, and only with no slot unused |
| ModuleCache.SlotTable.AcquireModule | src/dwarf/module_cache.c:97-148 | the method's new state and handle are those of the acquire function |
| ModuleCache.SlotTable.ReleaseModule | src/dwarf/module_cache.c:150-183 | the method's new state and status are those of the release function |
| ModuleCache.SlotTable.Flush | src/dwarf/module_cache.c:75-95 | every entry in use is reset and the clock returns to zero |
| CacheHistory.AfterIsSound | src/dwarf/module_cache.c:97-183 | every run of acquires and releases from a fresh cache leaves it sound, whatever the paths |
| CacheHistory.AfterKeepsInv | src/dwarf/module_cache.c:97-183 | when all paths fit, resident paths stay distinct over every run |
| CacheHistory.RunsKeepInvIff | src/dwarf/module_cache.c:97-183 | resident paths stay distinct over every run on a set of paths exactly when all paths of the set fit |
| CacheHistory.LongPathIsStoredTwice | src/dwarf/module_cache.c:17-35 | after two acquires of an over-long path two slots show the same path |
| CacheHistory.RefcountIsBalance | src/dwarf/module_cache.c:109-117 | a resident entry's refcount is its successful acquires minus its successful releases since it was loaded |
| CacheHistory.ReferencedIsStable | src/dwarf/module_cache.c:97-183 | while referenced, an entry is untouched by operations on other paths and handles |
| CacheHistory.HandleIsStable | src/dwarf/module_cache.c:97-183 | over any run in which it stays referenced, a handle denotes the same module |
| CacheHistory.ResidentIsFresh | src/dwarf/module_cache.c:128-147 | with unchanging files every resident entry equals a fresh load of an acquired path that is stored as its path, its own when all paths fit |
| CacheHistory.WarmOrderIsIdleOrder | src/dwarf/module_cache.c:173-177 | warm sequence numbers order entries by their last release to zero in the history |
| CacheHistory.EvictsEarliestIdle | src/dwarf/module_cache.c:50-62 | the evicted entry is the one whose last release to zero is earliest in the whole history |
| CacheLru.CapturesNeverFill | src/unwinder/dwunw_unwind.c:105-166 | after any run of captures every slot is unused or warm, and the next is never refused for lack of room |
| CacheLru.CaptureSeesFile | src/dwarf/module_cache.c:97-148 | with unchanging files a capture is given its own path's module, or its load's failure, after every history in which no other path is stored as its path |
| CacheLru.CapturesSeeFilesIff | src/dwarf/module_cache.c:17-148 | captures of a set of paths always are, for all files and histories, exactly when no path of the set is stored as another |
| CacheLru.CutPathGetsLongModule | src/dwarf/module_cache.c:17-35 | an over-long path's module is handed out for its first 511 bytes |
| CacheLru.ExactLru | src/unwinder/dwunw_unwind.c:105-166 | whatever the loads yield, the resident paths are those of the move-to-front list cut to sixteen, which loses its last path to a failing load when full |
| CacheLru.LruIsRecencyFront | src/unwinder/dwunw_unwind.c:105-166 | when loads succeed that list is the sixteen most recently captured distinct paths |
| CacheLru.ResidentIffRecentlyUsed | src/dwarf/module_cache.c:97-183 | counted in the history: a path is resident exactly when it was captured and fewer than sixteen other paths have been since |
| Capture.FollowIsMaximalWalk | src/unwinder/dwunw_unwind.c:128-162 | the frames beyond the root are a chain of find, evaluate, normalise steps that ends only at no FDE, an evaluation error or the frame limit |
| CaptureMeaning.CaptureIsChain | src/unwinder/dwunw_unwind.c:17-162 | frame 0 shows the request's pc, sp and path with the window, marked partial; each further frame shows the caller of the registers before, by the row of the first FDE for their pc and its own CIE |
| CaptureMeaning.WindowOutcome | src/unwinder/dwunw_unwind.c:17-59 | the root frame's window by the architecture's operations and their fallbacks |
| CaptureMeaning.CaptureOutcome | src/unwinder/dwunw_unwind.c:62-181 | which failure a capture returns, when it stops at the root frame, and when it walks |
| CaptureMeaning.BadEhFrameGivesRootOnly | src/dwarf/dwarf_index.c:47-57 | a module whose .eh_frame is malformed yields the root frame alone |
| Capture.WalkFrames | src/unwinder/dwunw_unwind.c:133-161 | at each step the cursor's pc is the last frame's pc, and no frame after the root is partial |
| Capture.LastFramePartialIff | src/unwinder/dwunw_unwind.c:119-162 | the last frame is partial exactly when it is the only one, and when that is, in terms of the request, module and reader |
| Capture.WalkOverwritesIff | src/unwinder/dwunw_unwind.c:128-162 | a walk overwrites the slot past its last frame exactly when it stops within its budget where the return address can be read and another slot cannot |
| Capture.SlotPastEndIff | src/unwinder/dwunw_unwind.c:119-162 | likewise for the caller's array after a capture, all later slots being untouched |
| LateFailure.UncountedFrameIsWritten | src/dwarf/cfi.c:932-955 | a module, and a stack with one readable word, on which a capture counts the root frame and overwrites the slot after it |
| Capture.CaptureIgnoresHistory | src/unwinder/dwunw_unwind.c:62-181 | with unchanging files, what a capture returns and writes is what it would from a fresh context, after every history in which no other path is stored as its path, also when loading fails |
| Capture.CapturesIgnoreHistoryIff | src/unwinder/dwunw_unwind.c:62-181 | for a set of paths this holds of all files, histories, requests and contexts exactly when no path of the set is stored as another |
| Capture.UnparsedModuleGivesRootOnly | src/dwarf/dwarf_index.c:47-57 | a module whose sections do not parse yields the root frame alone |
| Capture.WalkCallers | src/unwinder/dwunw_unwind.c:128-162 | the loop writes the chain's frames in place and leaves the rest of the array alone |
| Capture.CaptureHeld | src/unwinder/dwunw_unwind.c:110-162 | the part of a capture that holds its module: status, frame count and the whole frame array |
| Capture.CaptureFrames | src/unwinder/dwunw_unwind.c:62-181 | status, frame count, the whole frame array and the cache after a capture, on every path through it, for modules whose FDE pointers lead into their table |
| Packed.UpdatesUnpackToNet | examples/memleak_bcc_dwunw/memleak.h:15-21 | after any sequence of packed adds and subtracts the word unpacks to the net of the sizes passed and to the net count exactly when both are in range and what was cut off the sizes cancels modulo 2^24 units |
| Packed.SmallSizesLoseNothing | examples/memleak_bcc_dwunw/memleak.h:15-21 | with sizes below 2^40 nothing is cut off |
| Packed.CutSizeSpoilsCount | examples/memleak_bcc_dwunw/memleak_dwunw.bpf.c:106-130 | an add of 2^40 and a subtract of 1 leave both totals in range and a count of 2^24 - 1 |
| Packed.OrderDoesNotMatter | examples/memleak_bcc_dwunw/memleak_dwunw.bpf.c:106-130 | reordering the updates does not change the word |
| LeakCounters.StepKeepsLawIff | examples/memleak_bcc_dwunw/memleak_dwunw.bpf.c:98-206 | a handler step keeps "summary plus what is under way equals the packed live sum modulo 2^64" exactly when its guard holds |
| LeakCounters.GuardedRunsKeepLaw | examples/memleak_bcc_dwunw/memleak_dwunw.bpf.c:98-206 | the law holds over every interleaving of guarded steps |
| LeakCounters.RunKeepsLawIff | examples/memleak_bcc_dwunw/memleak_dwunw.bpf.c:98-206 | the law holds at every point of a run exactly when every step is guarded |
| LeakDepartures.RecordingOverLiveBreaksLaw | examples/memleak_bcc_dwunw/memleak_dwunw.bpf.c:152-182 | two allocations reported at one address break the law for good |
| LeakDepartures.RacingFreesBreakLaw | examples/memleak_bcc_dwunw/memleak_dwunw.bpf.c:189-206 | two threads that look one address up before either deletes it break the law for good |
| LeakDepartures.FreeBeforeEntryBreaksLaw | examples/memleak_bcc_dwunw/memleak_dwunw.bpf.c:98-131 | a free between an allocation's record and its summary loses its subtract |
| LeakDepartures.FullSummariesBreakLaw | examples/memleak_bcc_dwunw/memleak_dwunw.bpf.c:98-112 | with 10240 stacks summarised, an allocation from one more is live and in no summary |
| LeakCounters.SummariesAgreeWhenIdle | examples/memleak_bcc_dwunw/memleak_dwunw.bpf.c:98-206 | once no handler is under way every summary is the packed sum over its stack's live allocations |
| LeakCounters.RunKeepsBounds | examples/memleak_bcc_dwunw/memleak_dwunw.bpf.c:166-171 | no run records an address that marks a failure or holds more live allocations than the map has room for |
| LeakCounters.LiveWasRecorded | examples/memleak_bcc_dwunw/memleak_dwunw.bpf.c:133-182 | in every run each live allocation was recorded by a thread with that time and stack, and the size of the thread's last entry before |
| LeakCounters.StoresOutcome | examples/memleak_bcc_dwunw/memleak_dwunw.bpf.c:133-182 | an entry replaces the thread's size, a record moves it to the address unless that marks a failure or there is no room |
| LeakCounters.KeyIsSignExtended | examples/memleak_bcc_dwunw/memleak_dwunw.bpf.c:98-131 | the summary key of a stack id |
| LeakCounters.Maps.GenAllocEnter | examples/memleak_bcc_dwunw/memleak_dwunw.bpf.c:133-150 | the size is remembered for the thread unless filtered or sampled out |
| LeakCounters.Maps.UpdateStatisticsAdd | examples/memleak_bcc_dwunw/memleak_dwunw.bpf.c:98-112 | the stack's word grows by the packed increment, a new stack needing room |
| LeakCounters.Maps.UpdateStatisticsDel | examples/memleak_bcc_dwunw/memleak_dwunw.bpf.c:114-131 | the stack's word shrinks by the packed increment, if it has one |
| LeakCounters.Maps.GenAllocExit2 | examples/memleak_bcc_dwunw/memleak_dwunw.bpf.c:152-182 | the maps after the whole handler, alone |
| LeakCounters.Maps.GenFreeEnter | examples/memleak_bcc_dwunw/memleak_dwunw.bpf.c:189-206 | the maps after the whole handler, alone |
| LeakCounters.ExitIsRun | examples/memleak_bcc_dwunw/memleak_dwunw.bpf.c:152-182 | the exit handler alone is a run of its steps: record, find the entry, add |
| LeakCounters.FreeIsRun | examples/memleak_bcc_dwunw/memleak_dwunw.bpf.c:189-206 | the free handler alone is a run of its steps: look up, delete, subtract |
| LeakReport.VisitsAllIffNoZero | examples/memleak_bcc_dwunw/memleak_dwunw_user.c:1034-1046 | a walk from key 0 reaches every key exactly when 0 is none of them |
| LeakReport.VisitedBehindZero | examples/memleak_bcc_dwunw/memleak_dwunw_user.c:1034-1046 | and otherwise exactly the keys behind it |
| LeakDepartures.StackZeroIsMissed | examples/memleak_bcc_dwunw/memleak_dwunw_user.c:1155-1170 | an allocation from stack 0 is in one report and not reached by the other |
| LeakReport.GroupedIsSum | examples/memleak_bcc_dwunw/memleak_dwunw_user.c:1067-1121 | the grouped table has one entry per stack with kept allocations, with their exact size modulo 2^64, their number and, when asked for, the list of them |
| LeakReport.NodesAreAllocations | examples/memleak_bcc_dwunw/memleak_dwunw_user.c:1078-1114 | a stack's list holds as many nodes as counted, sizes that sum to its total, and only live allocations of the stack |
| LeakReport.NodesAreReported | examples/memleak_bcc_dwunw/memleak_dwunw_user.c:1057-1065 | it holds exactly the stack's allocations as old as the limit asks, each once |
| LeakReport.GroupedIsReported | examples/memleak_bcc_dwunw/memleak_dwunw_user.c:1034-1121 | a stack's entry has the number and total size of exactly those allocations, and with --show-allocs their list |
| LeakReport.ShownAreLargest | examples/memleak_bcc_dwunw/memleak_dwunw_user.c:1123-1127 | the entries shown are as many as asked for, largest first, and none left out is larger |
| LeakReport.OutstandingAllocs | examples/memleak_bcc_dwunw/memleak_dwunw_user.c:1026-1147 | the report shows the top of the grouped table of the visited entries, with their lists, and leaves the sorted table reset and the rest of the array alone |
| LeakReport.ReportLeavesNoLists | examples/memleak_bcc_dwunw/memleak_dwunw_user.c:1133-1144 | no entry of a finished report keeps a list, with or without `--show-allocs` |
| LeakReport.OutstandingCombined | examples/memleak_bcc_dwunw/memleak_dwunw_user.c:1151-1205 | the combined report shows the top of the unpacked summaries, and leaves them sorted in the array |
| LeakReport.ReportsAgree | examples/memleak_bcc_dwunw/memleak_dwunw_user.c:1034-1192 | after any guarded run with no handler under way, nothing filtered, no stack 0 and totals in range, both reports hold the same entry for every stack with allocations |
| Symbols.Ksyms.AddSymbol | examples/memleak_bcc_dwunw/trace_helpers.c:48-87 | adding a symbol keeps all earlier ones, tiles the arena, and grows both buffers as the code does |
| Symbols.GrowthOutcome | examples/memleak_bcc_dwunw/trace_helpers.c:53-75 | both capacities grow to the largest of a third more, 1024 and the need |
| Symbols.TilesGiveNames | examples/memleak_bcc_dwunw/trace_helpers.c:77-84 | every stored offset yields exactly the name added with its address |
| Symbols.TilesDoNotOverlap | examples/memleak_bcc_dwunw/trace_helpers.c:77-84 | the string regions of two symbols do not overlap |
| Symbols.MapAddr | examples/memleak_bcc_dwunw/trace_helpers.c:150-170 | the last symbol at or below the address, none iff there is none, also on an empty table |
| Symbols.FindSym | examples/memleak_bcc_dwunw/trace_helpers.c:630-658 | the last symbol starting at or below the offset if it contains it, with its offset set; otherwise nothing changes |
| Symbols.FindsAllCoveredIff | examples/memleak_bcc_dwunw/trace_helpers.c:641-657 | on a sorted table without wrapping ranges every covered offset is found exactly when no symbol is shadowed |
| Symbols.NestedSymbolHidesOffset | examples/memleak_bcc_dwunw/trace_helpers.c:641-657 | a sorted table of two symbols with a covered offset that is not found |
| Symbols.DisjointTablesAreComplete | examples/memleak_bcc_dwunw/trace_helpers.c:641-657 | with ranges that end before the next begins, the one containing symbol is found |

## Left out

- ELF opening and section slicing (`src/dwarf/elf_loader.c`): file input and struct casts; loading a path is a parameter.
- The stack reader (`src/utils/stack_reader.c`): ptrace and process memory; it is a deterministic partial function.
- The architecture back ends (`src/arch`) and their registry: straight-line formulas; their operations are parameters.
- Allocation failure, and overflow of reference counts, the warm clock and `int` sizes, and null pointer arguments.
- CfiSerial.SectionRoundTrip: sections are written in the layout the parser reads, which differs from the standards' in the CIE pointer of .eh_frame, PC-relative addresses, and the place of the address size from CIE version 3 on.
- Capture.CaptureFrames: modules in which an FDE's pointer leads into replaced storage, where the code's reads have no defined result.
- CfiPipeline.WrittenProgramsUnwindByTable: what the code reads through a pointer left in replaced storage; the CIE is read by its index, and the contract says when the pointer leads to it.
- LeakReport.OutstandingAllocs: the map does not change while a report walks it, and a node can always be allocated.
- LeakCounters.Maps.GenFreeEnter: a handler whose entry is deleted or replaced between its look-up and its use is assumed to go on with the value it looked up.
- The rest of `memleak_dwunw_user.c` (options, processes, printing, attaching) and the probes that only forward their arguments to the modelled handlers.
- The rest of `trace_helpers.c`, and `uprobe_helpers.c`, `core_fixes.bpf.h` and `examples/bpf_memleak`.
